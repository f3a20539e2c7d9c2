/** Option and Result datatypes used throughout the model. */
module Wrappers {

  /** A value that may be absent; `None` also stands for a C# null reference. */
  datatype Option<T> = None | Some(value: T)

  /** The outcome of an operation that can fail with an error of type `E`. */
  datatype Result<T, E> = Success(value: T) | Failure(error: E)

  /**
   The failures the engine can raise when keys, rules and collections are not
   null and delegates do not throw; the exceptions .NET raises on those are not
   modelled.
   */
  datatype Fault =
    | DuplicateBucket   // `Dictionary.Add` on a (KeyA, KeyB) pair that already has a bucket
    | NullEquation      // a step whose `ValueB` delegate is null was applied
}
