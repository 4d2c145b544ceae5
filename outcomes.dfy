/** Shared result types: the C# code reports failure either through a `bool`
    return or by throwing, and this module gives both a value form. */
module Outcomes {

  /** A value that may be absent (a C# `null`). */
  datatype Option<+T> = None | Some(value: T)

  /** The .NET exceptions the modelled code can raise. */
  datatype Exception =
    | FormatException               // Convert.ToByte on a non-hexadecimal pair
    | ArgumentException(message: string)  // `new ArgumentException(message)`; Convert.ToByte on a pair that starts with '-'
    | ArgumentOutOfRangeException   // String.Substring past the end of the string
    | OverflowException             // an array allocated with a negative length
    | CryptographicException        // a bad AES key size, bad padding or a corrupted block
    | DivideByZeroException         // `%` by zero
    | GeneralException(message: string)  // `new Exception(message)`

  /** Either the value a call returns or the exception it throws. */
  datatype Outcome<+T> = Return(value: T) | Throw(error: Exception)

  /** Bytes as .NET's `byte`. */
  newtype byte = x: int | 0 <= x < 256

  /** A .NET `int`. */
  newtype int32 = x: int | -0x8000_0000 <= x < 0x8000_0000
}
