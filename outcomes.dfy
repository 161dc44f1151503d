/** Option and Result values, and the error kinds a conversion or a read can fail with.
    Every Java exception on the modelled paths becomes one of these values. */
module Outcomes {

  datatype Option<+T> = None | Some(value: T)

  /** Why a stage failed. The Java code throws (and mostly wraps in RuntimeException);
      the model returns the reason instead. */
  datatype Error =
    | MissingLine(line: int)               // a line read past the end of the input
    | MissingToken(position: int)          // a token index past the end of a split line
    | NotAnInteger(token: string)         // Integer.parseInt rejected the token
    | NotANumber(token: string)           // Double.parseDouble rejected the token
    | NegativeCount(count: int)           // a negative size or block count
    | IndexOutOfRange(node: int)          // a node index outside the node array
    | UnsupportedDimension(dimension: int)
    | BadSubstring(begin: int, end: int)  // String.substring with an out-of-range bound
    | ArrayIndexOutOfBounds(index: int)   // a write past the end of a Java array

  datatype Result<+T> = Ok(value: T) | Err(error: Error)

  datatype Outcome = Pass | Fail(error: Error)
}
