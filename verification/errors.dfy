/** The Java exceptions the wrapper can raise, as values. */
module Errors {
  import opened Expressions

  datatype Error =
    | IllegalArgument            // IllegalArgumentException
    | IllegalState               // IllegalStateException
    | IndexOutOfBounds           // array, list or string index out of range
    | NegativeArraySize          // NegativeArraySizeException
    | NullPointer                // NullPointerException
    | InvalidParameter           // java.security.InvalidParameterException
    | OutOfMemory                // OutOfMemoryError
    | UnsupportedOperation       // UnsupportedOperationException
    | UnexpectedException        // a plain Exception("Unexpected exception")
    | HyperscanError(status: int)  // HyperscanException built from an engine status
    | CompileError(message: JString, expression: Expression)  // CompileErrorException
    | UtfDataFormat              // UTFDataFormatException
    | EndOfFile                  // EOFException
    | FilterCompileFailed(cause: Error)  // RuntimeException wrapping a CompileErrorException
}
