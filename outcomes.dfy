/** Outcome datatypes shared by all the data structures.
    - Result replaces a thrown exception (or Rust's io::Result) by an explicit error value.
    - Option is Rust's Option and the "found / not found" answer of a search.
    - Outcome is a Result without a value.
    - Run describes what code AS WRITTEN does on an input: it returns, or it dereferences
      a null pointer (undefined behaviour in C++). It is used only by the members that model
      a defect of the original code next to its corrected counterpart. */
module Outcomes {

  datatype Result<T, E> = Ok(value: T) | Err(error: E)

  datatype Option<T> = None | Some(value: T)

  /** The result of an operation that returns nothing on success (a C++ `void` member that
      may throw, a Rust `Result<(), Error>`). */
  datatype Outcome<E> = Pass | Fail(error: E)

  datatype Run<T> = Returns(value: T) | NullDereference
}
