/** Failure-compatible wrapper used wherever the renderer returns an optional value
    (Rust `Option`, C++ `std::optional`) or panics on a broken precondition. */
module Wrappers {

  datatype Option<+T> = None | Some(value: T)

  /** The outcome of floating-point work that can leave the reals: `NotANumber` stands
      for a result with a NaN or infinite component, which `real` cannot hold. */
  datatype Computed<+T> = Value(value: T) | NotANumber

}
