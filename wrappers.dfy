// Small shared value types used by several modules of the model.
module Wrappers {
  /** An optional value: the model's stand-in for a null pointer or a missing element. */
  datatype Option<T> = None | Some(value: T)
  {
    predicate IsSome() { Some? }
  }
}
