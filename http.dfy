/**
 * The HTTP exchange as values: the replies the service sends, the requests the
 * client issues, and the success/error mapping every chained call applies.
 */
module Http {
  import opened Wrappers
  import opened Int32Text
  import opened Errors
  import opened ResizeOperations

  datatype Header = Header(name: string, value: string)

  /** The JSON error body `{error, message}` of a non-success reply, already deserialized. */
  datatype ApiErrorResponse = ApiErrorResponse(error: string, message: string)

  datatype HttpReply = HttpReply(statusCode: int32, reasonPhrase: string, headers: seq<Header>, errorBody: ApiErrorResponse)

  datatype HttpMethod = Get | Post

  /** The request body, before JSON serialization. */
  datatype Content = NoContent | PreserveBody(preserve: seq<string>) | ResizeBody(resize: ResizeOperation)

  datatype Request = Request(verb: HttpMethod, url: string, content: Content)

  /** Stands for the `HttpClient` instance a compress response keeps for follow-up calls. */
  type ClientHandle = nat

  /** A request handed to `SendAsync` on a given client. */
  datatype Dispatch = Dispatch(client: ClientHandle, request: Request)

  /** The remote service: the reply a client gets for a request. */
  type Network = (ClientHandle, Request) -> HttpReply

  /** A `Task` that has finished: either with a value or with an exception. */
  datatype Task<+T> = Completed(result: T) | Faulted(exception: Error)

  /** What one chained call did: the request it sent, if any, and what it returned or threw. */
  datatype Outcome<+T> = Outcome(sent: Option<Dispatch>, result: Result<T, Error>)

  /** `HttpResponseMessage.IsSuccessStatusCode`. */
  predicate IsSuccessStatusCode(code: int32) { 200 <= code <= 299 }

  function ToLowerAscii(c: char): char
  {
    if 'A' <= c <= 'Z' then (c as int + 32) as char else c
  }

  /** Header names are compared without regard to ASCII case. */
  predicate EqualsIgnoreCase(a: string, b: string)
  {
    |a| == |b| && forall i :: 0 <= i < |a| ==> ToLowerAscii(a[i]) == ToLowerAscii(b[i])
  }

  /** `Headers.TryGetValues(name)`: the values of every header with that name, in order. */
  function HeaderValues(headers: seq<Header>, name: string): (values: seq<string>)
    ensures |values| <= |headers|
    ensures values == [] <==> forall i :: 0 <= i < |headers| ==> !EqualsIgnoreCase(headers[i].name, name)
    ensures forall v :: v in values <==> exists i :: 0 <= i < |headers| && EqualsIgnoreCase(headers[i].name, name) && headers[i].value == v
  {
    if headers == [] then []
    else
      var own := if EqualsIgnoreCase(headers[0].name, name) then [headers[0].value] else [];
      own + HeaderValues(headers[1..], name)
  }

  /** Headers received later only add values after the earlier ones. */
  lemma {:induction false} HeaderValuesAppend(a: seq<Header>, b: seq<Header>, name: string)
    ensures HeaderValues(a + b, name) == HeaderValues(a, name) + HeaderValues(b, name)
  {
    if a == [] {
      assert a + b == b;
    } else {
      assert (a + b)[0] == a[0];
      assert (a + b)[1..] == a[1..] + b;
      var own := if EqualsIgnoreCase(a[0].name, name) then [a[0].value] else [];
      assert HeaderValues(a + b, name) == own + HeaderValues(a[1..] + b, name);
      assert HeaderValues(a, name) == own + HeaderValues(a[1..], name);
      HeaderValuesAppend(a[1..], b, name);
    }
  }

  /** A reply carrying exactly one header yields that header's value under any spelling of its name. */
  lemma {:induction false} SingleHeaderValue(h: Header, rest: seq<Header>, name: string)
    requires EqualsIgnoreCase(h.name, name)
    ensures |HeaderValues([h] + rest, name)| > 0 && HeaderValues([h] + rest, name)[0] == h.value
  {
    assert ([h] + rest)[0] == h;
  }

  /** The exception raised for a non-success reply. */
  function ApiFailure(reply: HttpReply): (e: Error)
    ensures e.Api? && e.statusCode == reply.statusCode && e.statusReasonPhrase == reply.reasonPhrase
    ensures e.errorTitle == reply.errorBody.error && e.errorMessage == reply.errorBody.message
  {
    Api(reply.statusCode, reply.reasonPhrase, reply.errorBody.error, reply.errorBody.message)
  }

  /**
   * The check every chained call makes on its reply: a 2xx reply is returned to be
   * wrapped, any other raises the API exception with its fields echoed unchanged.
   */
  function Receive(reply: HttpReply): (r: Result<HttpReply, Error>)
    ensures r.Success? <==> IsSuccessStatusCode(reply.statusCode)
    ensures r.Success? ==> r.value == reply
    ensures r.Failure? ==> r.error == ApiFailure(reply)
  {
    if IsSuccessStatusCode(reply.statusCode) then Success(reply) else Failure(ApiFailure(reply))
  }

  /** Sends one request on a client and maps the reply. */
  function Send(network: Network, client: ClientHandle, request: Request): (o: Outcome<HttpReply>)
    ensures o.sent == Some(Dispatch(client, request))
    ensures o.result == Receive(network(client, request))
  {
    Outcome(Some(Dispatch(client, request)), Receive(network(client, request)))
  }
}
