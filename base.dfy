/** Shared wrapper types. */
module Base {

  /** A value that may be absent; stands for a C# `null` reference or a `null` result. */
  datatype Option<T> = None | Some(value: T)
}
