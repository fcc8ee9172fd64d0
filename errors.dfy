/** The exceptions the modelled code throws, and a result type that carries them. */
module Errors {

  /**
   * The .NET exception types raised by the modelled code. The coordinate's
   * InvalidOperationException is IcoCoordinates.Normalization.Unrepresentable instead, since
   * it carries the state the coordinate is left in.
   */
  datatype Error =
    | ArgumentOutOfRange   // System.ArgumentOutOfRangeException
    | Argument             // System.ArgumentException
    | NotImplemented       // System.NotImplementedException

  /** Either the value an operation returns or the exception it throws. */
  datatype Result<+T> = Ok(value: T) | Err(error: Error)
}
