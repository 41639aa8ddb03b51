# Way2enjoy .NET client: request guards and reply mapping

A Dafny model of the logic in the Way2enjoy image-compression client for .NET that runs
around each HTTP call. After `Compress`, the caller chains `Download` or `Resize` on the
compress response. Each chained call checks its arguments, builds a request, sends it
through the `HttpClient` the compress response kept, and then either wraps the reply or
raises a `Way2enjoyApiException`.

The network is a value. `Http.Network` maps a client handle and a request to the reply
the service gives. Every chained call returns an `Http.Outcome`: the request it handed
to `SendAsync` (`sent`, or `None` when it sent nothing) and what it returned or threw.
"No request on a validation failure" is therefore a statement about `sent`. Exceptions
are values of `Errors.Error`. A `Task` that has already finished is `Http.Task`, either
`Completed` or `Faulted`. A null reference is `Wrappers.None`.

Modules, one per source file or concern:

- `PreserveMetadata`: the `[Flags]` enum as 32-bit patterns (`None = 1`, `Copyright = 2`, `Creation = 4`, `Location = 8`) and `Enum.HasFlag`.
- `DownloadExtensions`: `CreateContent` is an imperative method that appends names one flag at a time. It is proved equal to `PreserveContent`, a declarative filter over the ordered table copyright, creation, location. The module also holds both `Download` overloads.
- `ResizeOperations`: the resize descriptor and the validating `CoverResizeOperation` constructor.
- `ResizeExtensions`: both `Resize` overloads.
- `Responses`: the compress response (output type, output URL, client) and the `Way2enjoyResponse` class. The class reads `Compression-Count` once, in its constructor, into a field that never changes afterwards.
- `ApiExceptions`: the `Way2enjoyApiException` class (four get-only fields, the `Data` dictionary filled by four `Add` calls) and its `Message` format.
- `Http`, `Int32Text`, `Errors`, `Wrappers`: the reply and request values, the 2xx rule, case-insensitive header lookup, and .NET's `int.ToString()` and `int.TryParse`.

Points where the code's behaviour is easy to misread, all modelled as written:
- The body is omitted only when the metadata is exactly `None` (1). The value 0 still sends `{preserve: []}`, and `None | Copyright` sends `["copyright"]`.
- The compression count can be negative: `-3` is read as -3.
- `CoverResizeOperation` and `Resize(width, height)` reject only zero. Negative dimensions pass.
- The height error of `CoverResizeOperation` names the parameter `width`.
- `Resize(result, operation)` does not check the awaited compress response for null. A completed task holding null fails with a `NullReferenceException` (`Errors.NullReference`), not an argument error.

## Model

| member | source | states |
|---|---|---|
| `PreserveMetadata.Value` | src/Way2Enjoy/PreserveMetadata.cs:12-15 | each member's value is a single nonzero bit no larger than 8 |
| `PreserveMetadata.ValuesDisjoint` | src/Way2Enjoy/PreserveMetadata.cs:9-15 | distinct members share no bit and have distinct values |
| `PreserveMetadata.CombineWithinFourBits` | src/Way2Enjoy/PreserveMetadata.cs:12-15 | every OR-combination of members lies in 0..15 |
| `PreserveMetadata.HasFlagOfCombine` | src/Way2Enjoy/PreserveMetadata.cs:9-15 | `HasFlag` on a combination is true iff that member was OR-ed in |
| `PreserveMetadata.ZeroCarriesNoFlag` | src/Way2Enjoy/PreserveMetadata.cs:12 | no member is zero and 0 carries no flag; `None` combines with other members and both stay detectable |
| `DownloadExtensions.PreserveContent` | src/Way2Enjoy/Extensions/DownloadExtensions.cs:59-83 | there is no body iff the metadata is exactly `None`; every failure is an `InvalidOperationException` on a non-JPEG type; a body names at most the three preservable members |
| `DownloadExtensions.CreateContent` | src/Way2Enjoy/Extensions/DownloadExtensions.cs:59-88 | the step-by-step list building gives the same result as the declarative `PreserveContent`: no body, the error, or the names of the set flags in table order |
| `DownloadExtensions.Selected` | src/Way2Enjoy/Extensions/DownloadExtensions.cs:64-83 | at most one name per table entry |
| `DownloadExtensions.SelectedMembership` | src/Way2Enjoy/Extensions/DownloadExtensions.cs:64-83 | a member's name is in the list iff the member is in the table and its flag is set |
| `DownloadExtensions.SelectedAscending` | src/Way2Enjoy/Extensions/DownloadExtensions.cs:64-83 | over a table in rank order, the names are preservable names in strictly increasing rank |
| `DownloadExtensions.NoBodyOnlyForExactlyNone` | src/Way2Enjoy/Extensions/DownloadExtensions.cs:61-62 | there is no body iff the metadata value is exactly `None` (1) |
| `DownloadExtensions.OnlyJpegMayPreserveCreationOrLocation` | src/Way2Enjoy/Extensions/DownloadExtensions.cs:66-80 | validation fails iff `Creation` or `Location` is set and the type is not `image/jpeg`; the `Creation` error wins when both are set; `Copyright` alone and every JPEG combination pass |
| `DownloadExtensions.PreserveListFollowsFlags` | src/Way2Enjoy/Extensions/DownloadExtensions.cs:64-83 | a built body names copyright, creation and location each iff its bit is set, nothing else, in that order |
| `DownloadExtensions.Download` | src/Way2Enjoy/Extensions/DownloadExtensions.cs:38-57 | a null response throws `ArgumentNullException("compressResponse")`; nothing is sent iff the response is null or validation fails; otherwise exactly one GET goes to the output URL on the response's client, with the validated body, and the reply is mapped by `Receive`; when validation fails the result is exactly the `InvalidOperationException` that `CreateContent` raised |
| `DownloadExtensions.DownloadPending` | src/Way2Enjoy/Extensions/DownloadExtensions.cs:21-30 | a null task throws `ArgumentNullException("compressResponse")`; a faulted task passes its exception on unchanged; both send nothing; a task that completed behaves exactly as the response overload on its result, so a completed null gives `ArgumentNullException("compressResponse")` |
| `DownloadExtensions.InvalidMetadataSendsNothing` | src/Way2Enjoy/Extensions/DownloadExtensions.cs:43-48 | `Creation` or `Location` on a non-JPEG output raises `InvalidOperationException` and issues no request |
| `DownloadExtensions.JpegDownloadAlwaysSends` | src/Way2Enjoy/Extensions/DownloadExtensions.cs:43-56 | on a JPEG output every flag combination is sent; a 2xx reply is returned, any other raises the API error with the reply's status, reason, title and message |
| `DownloadExtensions.DefaultDownloadHasNoBody` | src/Way2Enjoy/Extensions/DownloadExtensions.cs:38-46 | with the default metadata the GET carries no content |
| `Http.Receive` | src/Way2Enjoy/Extensions/DownloadExtensions.cs:50-56 | the result is the reply iff the status is 2xx; otherwise the API error with the reply's fields unchanged |
| `Http.ApiFailure` | src/Way2Enjoy/Extensions/ResizeExtensions.cs:40-41 | the raised error carries the status code, reason phrase, server title and server message unchanged |
| `Http.Send` | src/Way2Enjoy/Extensions/ResizeExtensions.cs:34-41 | records exactly the request handed to `SendAsync` and maps that request's reply |
| `Http.HeaderValues` | src/Way2Enjoy/Responses/Way2enjoyResponse.cs:17 | a header lookup yields at most one value per received header; it is empty iff no header's name equals the asked name ignoring ASCII case; a text is among the values iff some header with a matching name holds it |
| `Http.HeaderValuesAppend` | src/Way2Enjoy/Responses/Way2enjoyResponse.cs:17 | values of headers received later come after the earlier ones |
| `Http.SingleHeaderValue` | src/Way2Enjoy/Responses/Way2enjoyResponse.cs:17 | a header found under any ASCII-case spelling of its name gives the first value |
| `ResizeOperations.CoverResizeOperation` | src/Way2Enjoy/ResizeOperations/CoverResizeOperation.cs:7-16 | succeeds iff both dimensions are nonzero, negatives included, with the Cover tag and the given dimensions (so the cover invariant holds); a zero width gives "You must specify a width" first; a zero height gives "You must specify a height" with parameter name "width" |
| `ResizeExtensions.ResizeWithOperation` | src/Way2Enjoy/Extensions/ResizeExtensions.cs:19-42 | a null result is rejected first, then a null operation, and both before the result is awaited; a request is sent iff both are present and the task completed with a response; a faulted task passes its exception on unchanged, and a task that completed with null raises `NullReferenceException` (from reading `Output`), neither sending anything; a sent request is a POST of the operation to the output URL on that client, mapped by `Receive` |
| `ResizeExtensions.ResizeWithDimensions` | src/Way2Enjoy/Extensions/ResizeExtensions.cs:52-64 | null result, then `width == 0`, then `height == 0` are rejected in that order; otherwise it behaves as the operation overload with (resizeType, width, height) |
| `ResizeExtensions.ZeroDimensionSendsNothing` | src/Way2Enjoy/Extensions/ResizeExtensions.cs:54-59 | any zero dimension raises an argument error and sends nothing |
| `ResizeExtensions.NonzeroDimensionsAreForwarded` | src/Way2Enjoy/Extensions/ResizeExtensions.cs:56-63 | every nonzero pair, negatives included, is sent as one POST of exactly (type, width, height) to the output URL; a 2xx reply is returned, any other raises the API error unchanged |
| `ResizeExtensions.DefaultTypeIsFit` | src/Way2Enjoy/Extensions/ResizeExtensions.cs:52 | without a resize type the forwarded operation is Fit |
| `ResizeExtensions.CoverVariantsAgree` | src/Way2Enjoy/Extensions/ResizeExtensions.cs:52-63 | passing (w, h, Cover) and passing `CoverResizeOperation(w, h)` give the same outcome for valid dimensions; both refuse a zero dimension, width first, before any request |
| `Responses.Way2enjoyResponse.constructor` | src/Way2Enjoy/Responses/Way2enjoyResponse.cs:15-22 | stores the reply unchanged; the count is the first `Compression-Count` value read by `TryParse`, or 0; both fields are constant afterwards |
| `Responses.CompressionCountOf` | src/Way2Enjoy/Responses/Way2enjoyResponse.cs:17-19 | 0 when no `Compression-Count` header was received; any nonzero count is the parse of the first such header's first value |
| `Responses.CountWithoutHeader` | src/Way2Enjoy/Responses/Way2enjoyResponse.cs:11-17 | with no `Compression-Count` header the count is 0 |
| `Responses.CountFromFirstValue` | src/Way2Enjoy/Responses/Way2enjoyResponse.cs:17-19 | the count is the first value when it parses as an Int32, else 0 |
| `Responses.CountIgnoresLaterHeaders` | src/Way2Enjoy/Responses/Way2enjoyResponse.cs:19 | headers after the first matching one never change the count |
| `Responses.CountOfFormattedHeader` | src/Way2Enjoy/Responses/Way2enjoyResponse.cs:17-19 | a header holding any Int32 written in decimal is reported as that number, under any case of the header name |
| `Responses.CountOfNinetyNine` | tests/Way2enjoy.Tests/Extensions.cs:35 | `Compression-Count: 99` is reported as 99 |
| `Responses.CountOfNegativeValue` | src/Way2Enjoy/Responses/Way2enjoyResponse.cs:19 | `-3` is reported as -3, so the count can be negative |
| `Responses.CountOfOutOfRangeValue` | src/Way2Enjoy/Responses/Way2enjoyResponse.cs:19 | a numeral whose value is above `int.MaxValue`, or below `int.MinValue` with a `-`, is reported as 0, under any spelling of the name and whatever follows |
| `Responses.CountOfIntMaxPlusOne` | src/Way2Enjoy/Responses/Way2enjoyResponse.cs:19 | `Compression-Count: 2147483648` is reported as 0 |
| `Int32Text.OutOfRangeRejected` | src/Way2Enjoy/Responses/Way2enjoyResponse.cs:19 | `int.TryParse` fails on a numeral whose magnitude does not fit in an Int32: at least 2^31 unsigned, more than 2^31 with a `-` |
| `Responses.CountOfUnparsableValue` | src/Way2Enjoy/Responses/Way2enjoyResponse.cs:19 | an unparsable value is reported as 0 |
| `Int32Text.TryParseInt32` | src/Way2Enjoy/Responses/Way2enjoyResponse.cs:19 | succeeds iff the text is an Int32 numeral; the out value is the parsed number, or 0 on failure |
| `Int32Text.FormatParseRoundTrip` | src/Way2Enjoy/Way2enjoyApiException.cs:27 | the decimal text of any Int32 parses back to the same value |
| `ApiExceptions.Way2enjoyApiException.constructor` | src/Way2Enjoy/Way2enjoyApiException.cs:13-24 | the four fields equal the arguments; `Data` holds exactly the keys ErrorTitle, ErrorMessage, StatusCode and StatusReasonPhrase, each mapped to its field |
| `ApiExceptions.Way2enjoyApiException.AddData` | src/Way2Enjoy/Way2enjoyApiException.cs:20-23 | adds one new key with its value and changes nothing else |
| `ApiExceptions.Raise` | src/Way2Enjoy/Extensions/DownloadExtensions.cs:56 | the exception object built for an API error carries its four fields unchanged |
| `ApiExceptions.FormatMessage` | src/Way2Enjoy/Way2enjoyApiException.cs:26-27 | the text starts with the fixed prefix, ends with ", " and the error message, and its length is the sum of the status code's decimal text, the three strings and the separators " - ", ". ", ", " |
| `ApiExceptions.Way2enjoyApiException.Message` | src/Way2Enjoy/Way2enjoyApiException.cs:26-27 | the message is the format of the four stored fields: it starts with the fixed prefix and ends with the error message |
| `ApiExceptions.MessageDependsOnlyOnFields` | src/Way2Enjoy/Way2enjoyApiException.cs:26-27 | exceptions with the same four fields have the same `Message`, whatever `Data` holds |
| `ApiExceptions.MessageCarriesStatusCode` | src/Way2Enjoy/Way2enjoyApiException.cs:26-27 | the message starts with the fixed prefix, and the status code reads back from the text between the prefix and " - " |
| `ApiExceptions.MessageExample` | tests/Way2enjoy.Tests/Way2enjoyTests.cs:394-408 | (200, "status", "title", "message") gives the exact message text |

## Left out

- Getting the image bytes or stream and writing them to disk (`ImageDataExtensions.cs`) is I/O with no logic of its own and is not part of this model.
- JSON serialization of request bodies and deserialization of replies. Bodies stay as values (`Http.Content`), and the error body `{error, message}` is taken as already parsed. Three kinds of error body are not modelled. A body that is not JSON makes the deserializer throw its own reader exception. An empty body or a literal `null` gives a null object, and then a `NullReferenceException` when the title is read. A JSON object without the `error` and `message` fields gives an API exception whose title and message are null.
- `Way2enjoyCompressResponse` deserializes its body synchronously inside the constructor. This is not modelled: the compress response is only its output type, its output URL and its client.
- `Way2enjoyImageResponse` adds nothing to its base class. `Way2enjoyResizeResponse` is not part of this model, and may read more of the reply, such as the `Image-Width` and `Image-Height` headers. Both are modelled as their base class. A successful call returns the reply, and `Responses.Way2enjoyResponse` describes what wrapping that reply yields.
- Parsing the output URL. Both `Download` (src/Way2Enjoy/Extensions/DownloadExtensions.cs:43) and the operation overload of `Resize` (src/Way2Enjoy/Extensions/ResizeExtensions.cs:30) build an `HttpRequestMessage` from the URL string, and that constructor throws `UriFormatException` on a malformed URL before `CreateContent` runs. URLs are opaque strings in the model, so a malformed URL, and `Download` failing on it before the metadata is checked, is not modelled.
- Async scheduling, `ConfigureAwait`, and failures inside `HttpClient.SendAsync` (transport errors, a null or relative URL) are left out. A task is modelled only once it has finished.
- Strings are never null in the model. Null reason phrases, titles or URLs are not represented.
- `Way2enjoyClient`, the S3 upload, the `ResizeOperation` base class and the other resize variants are not part of this model. The base constructor is modelled as storing its arguments without validation. `ResizeType` lists Fit, Cover, Scale and Thumb.
- Int32Text.TryParseInt32: models the invariant-culture `int.TryParse`, meaning ASCII white space, `+`/`-` and ASCII digits. It does not model culture-specific signs or .NET's acceptance of trailing NUL characters.
- Int32Text.FormatInt32: writes a negative status code with `-`. The interpolation in the exception message (src/Way2Enjoy/Way2enjoyApiException.cs:27) uses the current culture's negative sign, and other cultures are not modelled.
- `PreserveMetadata` values are their 32-bit patterns. The model does not track which values have a name in the enum.
