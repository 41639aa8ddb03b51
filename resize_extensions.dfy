/** `ResizeExtensions`: the two `Resize` overloads over a pending compress result. */
module ResizeExtensions {
  import opened Wrappers
  import opened Int32Text
  import opened Errors
  import opened ResizeOperations
  import opened Http
  import opened Responses

  /** The resize type when the caller gives none. */
  const DefaultResizeType := Fit

  /**
   * `Resize(result, resizeOperation)`: both null checks come before the result is
   * awaited; the awaited response itself is not checked, so a null one fails when its
   * output is read. A POST with the operation as body goes to the output URL.
   */
  function ResizeWithOperation(pending: Option<Task<Option<CompressResponse>>>, operation: Option<ResizeOperation>, network: Network): (o: Outcome<HttpReply>)
    ensures pending.None? ==> o == Outcome(None, Failure(ArgumentNull("result")))
    ensures pending.Some? && operation.None? ==> o == Outcome(None, Failure(ArgumentNull("resizeOperation")))
    ensures operation.Some? && pending.Some? && pending.value.Faulted? ==> o == Outcome(None, Failure(pending.value.exception))
    ensures operation.Some? && pending == Some(Completed(None)) ==> o == Outcome(None, Failure(NullReference))
    ensures o.sent.Some? <==> pending.Some? && operation.Some? && pending.value.Completed? && pending.value.result.Some?
    ensures o.sent.Some? ==>
      var response := pending.value.result.value;
      && o.sent.value == Dispatch(response.client, Request(Post, response.output.url, ResizeBody(operation.value)))
      && o.result == Receive(network(response.client, o.sent.value.request))
  {
    if pending.None? then Outcome(None, Failure(ArgumentNull("result")))
    else if operation.None? then Outcome(None, Failure(ArgumentNull("resizeOperation")))
    else match pending.value
      case Faulted(e) => Outcome(None, Failure(e))
      case Completed(None) => Outcome(None, Failure(NullReference))
      case Completed(Some(response)) =>
        Send(network, response.client, Request(Post, response.output.url, ResizeBody(operation.value)))
  }

  /**
   * `Resize(result, width, height, resizeType)`: a null result, then a zero width, then
   * a zero height are rejected; any other pair, negative ones included, is forwarded as
   * the operation (resizeType, width, height).
   */
  function ResizeWithDimensions(pending: Option<Task<Option<CompressResponse>>>, width: int32, height: int32, resizeType: ResizeType, network: Network): (o: Outcome<HttpReply>)
    ensures pending.None? ==> o == Outcome(None, Failure(ArgumentNull("result")))
    ensures pending.Some? && width == 0 ==> o == Outcome(None, Failure(ArgumentOutOfRange("width")))
    ensures pending.Some? && width != 0 && height == 0 ==> o == Outcome(None, Failure(ArgumentOutOfRange("height")))
    ensures width != 0 && height != 0 ==>
      o == ResizeWithOperation(pending, Some(ResizeOperation(resizeType, Some(width), Some(height))), network)
  {
    if pending.None? then Outcome(None, Failure(ArgumentNull("result")))
    else if width == 0 then Outcome(None, Failure(ArgumentOutOfRange("width")))
    else if height == 0 then Outcome(None, Failure(ArgumentOutOfRange("height")))
    else ResizeWithOperation(pending, Some(ResizeOperation(resizeType, Some(width), Some(height))), network)
  }

  /** A zero dimension never reaches the network, and the error is an argument error. */
  lemma ZeroDimensionSendsNothing(pending: Option<Task<Option<CompressResponse>>>, width: int32, height: int32, resizeType: ResizeType, network: Network)
    requires width == 0 || height == 0
    ensures var o := ResizeWithDimensions(pending, width, height, resizeType, network);
      o.sent.None? && o.result.Failure? && (o.result.error.ArgumentNull? || o.result.error.ArgumentOutOfRange?)
  {
  }

  /**
   * Only zero is rejected: for a completed compress response, any nonzero pair is sent as
   * one POST to the output URL carrying exactly (resizeType, width, height), and the reply
   * is mapped as every chained call maps it.
   */
  lemma NonzeroDimensionsAreForwarded(response: CompressResponse, width: int32, height: int32, resizeType: ResizeType, network: Network)
    requires width != 0 && height != 0
    ensures var o := ResizeWithDimensions(Some(Completed(Some(response))), width, height, resizeType, network);
      var request := Request(Post, response.output.url, ResizeBody(ResizeOperation(resizeType, Some(width), Some(height))));
      var reply := network(response.client, request);
      && o.sent == Some(Dispatch(response.client, request))
      && (IsSuccessStatusCode(reply.statusCode) <==> o.result == Success(reply))
      && (!IsSuccessStatusCode(reply.statusCode) ==>
            o.result == Failure(Api(reply.statusCode, reply.reasonPhrase, reply.errorBody.error, reply.errorBody.message)))
  {
  }

  /** Resizing by dimensions with the default type sends a Fit operation. */
  lemma DefaultTypeIsFit(response: CompressResponse, width: int32, height: int32, network: Network)
    requires width != 0 && height != 0
    ensures ResizeWithDimensions(Some(Completed(Some(response))), width, height, DefaultResizeType, network).sent.value.request.content
      == ResizeBody(ResizeOperation(Fit, Some(width), Some(height)))
  {
  }

  /**
   * Passing `(width, height, Cover)` and passing `new CoverResizeOperation(width, height)`
   * do the same thing when the dimensions are valid, and both refuse a zero dimension
   * before any request, width first.
   */
  lemma CoverVariantsAgree(pending: Task<Option<CompressResponse>>, width: int32, height: int32, network: Network)
    ensures CoverResizeOperation(width, height).Success? ==>
      ResizeWithDimensions(Some(pending), width, height, Cover, network)
        == ResizeWithOperation(Some(pending), Some(CoverResizeOperation(width, height).value), network)
    ensures CoverResizeOperation(width, height).Failure? ==>
      && ResizeWithDimensions(Some(pending), width, height, Cover, network).sent.None?
      && ResizeWithDimensions(Some(pending), width, height, Cover, network).result.error.paramName
         == (if width == 0 then "width" else "height")
      && CoverResizeOperation(width, height).error.message
         == (if width == 0 then WidthRequired else HeightRequired)
  {
  }
}
