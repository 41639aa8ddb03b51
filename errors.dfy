/**
 * The exceptions the client raises, as values. Argument errors are raised before any
 * request is sent; `Api` is a `Way2enjoyApiException` built from a non-success reply.
 */
module Errors {
  import opened Int32Text

  datatype Error =
    | ArgumentNull(paramName: string)
    | ArgumentOutOfRange(paramName: string)
    | Argument(message: string, paramName: string)
    | InvalidOperation(message: string)
    | NullReference
    | Api(statusCode: int32, statusReasonPhrase: string, errorTitle: string, errorMessage: string)
}
