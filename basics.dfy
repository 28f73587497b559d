/** Small value types shared by the three models. */
module Basics {

  /** A value or its absence: a C# null, a failed `int.TryParse`, or an operation that threw. */
  datatype Option<T> = None | Some(value: T)

  /** The values of a C# `int`. */
  type Int32 = x: int | -0x8000_0000 <= x < 0x8000_0000

  const Int32Min: int := -0x8000_0000
}
