/** What an RPC handler answers: a result, or one of the source's error replies. */
module Rpc {
  import opened Basics

  const CHAIN_UNAVAILABLE: string := "BlockChain unavailable"
  const NO_TIP: string := "Failed to retrieve chain tip"

  datatype RpcError =
    /** `RPC::Errors::PARAMS_MISSING` */
    | ParamsMissing
    /** `RPC::ErrorCode::INTERNAL_ERROR` with its message */
    | InternalError(message: string)
    /** the `"INVALID_PARAMS"` error with its message */
    | InvalidParams(message: string)
    /** an exception thrown by a JSON conversion, which the handler does not catch */
    | ConversionFailed

  datatype Response<+T> = Ok(value: T) | Error(error: RpcError) {
    predicate IsFailure() { Error? }

    function PropagateFailure<U>(): Response<U>
      requires Error?
    {
      Error(error)
    }

    function Extract(): T
      requires Ok?
    {
      value
    }
  }

  /** A conversion that threw escapes the handler as `ConversionFailed`. */
  function FromConversion<T>(v: Option<T>): (r: Response<T>)
    ensures v.Some? <==> r.Ok?
    ensures v.Some? ==> r.value == v.value
    ensures v.None? ==> r == Error(ConversionFailed)
  {
    match v
    case Some(x) => Ok(x)
    case None => Error(ConversionFailed)
  }
}
