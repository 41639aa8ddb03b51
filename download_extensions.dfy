/**
 * `DownloadExtensions`: building the optional `{preserve: [...]}` body from the
 * metadata flags, and the two `Download` overloads that send it to the output URL.
 */
module DownloadExtensions {
  import opened Wrappers
  import opened Errors
  import opened Http
  import opened Responses
  import PM = PreserveMetadata

  const JpegType := "image/jpeg"
  const CreationRequiresJpeg := "Creation metadata can only be preserved with type image/jpeg"
  const LocationRequiresJpeg := "Location metadata can only be preserved with type image/jpeg"

  /** The metadata argument when the caller gives none. */
  const DefaultMetadata: PM.Bits := PM.Value(PM.None)

  /** The members that can be preserved, in the order their names go into the body. */
  const PreserveOrder: seq<PM.Flag> := [PM.Copyright, PM.Creation, PM.Location]

  predicate Preservable(table: seq<PM.Flag>)
  {
    forall i :: 0 <= i < |table| ==> table[i] != PM.None
  }

  /** The name a preservable member has in the request body. */
  function Name(f: PM.Flag): string
    requires f != PM.None
  {
    match f
    case Copyright => "copyright"
    case Creation => "creation"
    case Location => "location"
  }

  /** Position of a member in `PreserveOrder`. */
  function Rank(f: PM.Flag): nat
    requires f != PM.None
  {
    match f
    case Copyright => 0
    case Creation => 1
    case Location => 2
  }

  /** Position of a body name in `PreserveOrder`. */
  function NameRank(name: string): nat
  {
    if name == "copyright" then 0 else if name == "creation" then 1 else 2
  }

  predicate IsPreserveName(name: string)
  {
    name == "copyright" || name == "creation" || name == "location"
  }

  /** The names of the members of `table` whose flag is set, in table order. */
  function Selected(table: seq<PM.Flag>, metadata: PM.Bits): (names: seq<string>)
    requires Preservable(table)
    ensures |names| <= |table|
  {
    if table == [] then []
    else
      var own := if PM.HasFlag(metadata, table[0]) then [Name(table[0])] else [];
      own + Selected(table[1..], metadata)
  }

  /**
   * What `CreateContent` produces: no body for exactly `None`; an error when `Creation`
   * (checked first) or `Location` is asked for on a non-JPEG image; otherwise the names
   * of the set flags.
   */
  function PreserveContent(metadata: PM.Bits, imageType: string): (r: Result<Content, Error>)
    ensures r == Success(NoContent) <==> metadata == PM.Value(PM.None)
    ensures r.Failure? ==> r.error.InvalidOperation? && imageType != JpegType
    ensures r.Success? && r.value.PreserveBody? ==> |r.value.preserve| <= |PreserveOrder|
  {
    if metadata == PM.Value(PM.None) then Success(NoContent)
    else if PM.HasFlag(metadata, PM.Creation) && imageType != JpegType then
      Failure(InvalidOperation(CreationRequiresJpeg))
    else if PM.HasFlag(metadata, PM.Location) && imageType != JpegType then
      Failure(InvalidOperation(LocationRequiresJpeg))
    else Success(PreserveBody(Selected(PreserveOrder, metadata)))
  }

  /** `CreateContent`: fills the `preserve` list one flag at a time. */
  method CreateContent(metadata: PM.Bits, imageType: string) returns (r: Result<Content, Error>)
    ensures r == PreserveContent(metadata, imageType)
  {
    if metadata == PM.Value(PM.None) {
      return Success(NoContent);
    }
    var preserve: seq<string> := [];
    if PM.HasFlag(metadata, PM.Copyright) {
      preserve := preserve + ["copyright"];
    }
    if PM.HasFlag(metadata, PM.Creation) {
      if imageType != JpegType {
        return Failure(InvalidOperation(CreationRequiresJpeg));
      }
      preserve := preserve + ["creation"];
    }
    if PM.HasFlag(metadata, PM.Location) {
      if imageType != JpegType {
        return Failure(InvalidOperation(LocationRequiresJpeg));
      }
      preserve := preserve + ["location"];
    }
    SelectedInPreserveOrder(metadata);
    assert preserve == Selected(PreserveOrder, metadata);
    r := Success(PreserveBody(preserve));
  }

  /** `Selected` over the fixed table, unfolded. */
  lemma SelectedInPreserveOrder(metadata: PM.Bits)
    ensures Selected(PreserveOrder, metadata)
      == (if PM.HasFlag(metadata, PM.Copyright) then ["copyright"] else [])
       + (if PM.HasFlag(metadata, PM.Creation) then ["creation"] else [])
       + (if PM.HasFlag(metadata, PM.Location) then ["location"] else [])
  {
    var t := PreserveOrder;
    assert t[1..] == [PM.Creation, PM.Location];
    assert t[1..][1..] == [PM.Location];
    assert t[1..][1..][1..] == [];
    assert Selected(t[1..][1..], metadata)
      == (if PM.HasFlag(metadata, PM.Location) then ["location"] else []);
    assert Selected(t[1..], metadata)
      == (if PM.HasFlag(metadata, PM.Creation) then ["creation"] else [])
       + (if PM.HasFlag(metadata, PM.Location) then ["location"] else []);
  }

  /** A member's name is selected exactly when the member is in the table and its flag is set. */
  lemma {:induction false} SelectedMembership(table: seq<PM.Flag>, metadata: PM.Bits, f: PM.Flag)
    requires Preservable(table) && f != PM.None
    ensures Name(f) in Selected(table, metadata) <==> f in table && PM.HasFlag(metadata, f)
  {
    if table != [] {
      SelectedMembership(table[1..], metadata, f);
      assert table == [table[0]] + table[1..];
    }
  }

  /** Names that are all preservable, ranked no lower than `lowest`, in strictly increasing rank. */
  predicate RankedFrom(names: seq<string>, lowest: nat)
  {
    && (forall i :: 0 <= i < |names| ==> IsPreserveName(names[i]) && NameRank(names[i]) >= lowest)
    && (forall i, j :: 0 <= i < j < |names| ==> NameRank(names[i]) < NameRank(names[j]))
  }

  /** Over a table listed in rank order, the selected names follow that order and rank no lower than its first member. */
  lemma {:induction false} SelectedAscending(table: seq<PM.Flag>, metadata: PM.Bits)
    requires Preservable(table) && table != []
    requires forall i, j :: 0 <= i < j < |table| ==> Rank(table[i]) < Rank(table[j])
    ensures RankedFrom(Selected(table, metadata), Rank(table[0]))
  {
    var names := Selected(table, metadata);
    var own := if PM.HasFlag(metadata, table[0]) then [Name(table[0])] else [];
    var rest := Selected(table[1..], metadata);
    assert names == own + rest;
    assert IsPreserveName(Name(table[0])) && NameRank(Name(table[0])) == Rank(table[0]);
    if |table| == 1 {
      assert rest == [];
      assert names == own;
    } else {
      SelectedAscending(table[1..], metadata);
      assert table[1..][0] == table[1];
      assert RankedFrom(rest, Rank(table[1]));
      assert Rank(table[0]) < Rank(table[1]);
      forall i | 0 <= i < |names|
        ensures IsPreserveName(names[i]) && NameRank(names[i]) >= Rank(table[0])
      {
        if i >= |own| {
          assert names[i] == rest[i - |own|];
        }
      }
      forall i, j | 0 <= i < j < |names|
        ensures NameRank(names[i]) < NameRank(names[j])
      {
        assert names[j] == rest[j - |own|];
        if i >= |own| {
          assert names[i] == rest[i - |own|];
        }
      }
    }
  }

  /** Exactly the value `None` (1) yields no body; every other value, 0 included, builds one or fails. */
  lemma NoBodyOnlyForExactlyNone(metadata: PM.Bits, imageType: string)
    ensures PreserveContent(metadata, imageType) == Success(NoContent) <==> metadata == PM.Value(PM.None)
  {
  }

  /**
   * Validation fails exactly when `Creation` or `Location` is asked for on a non-JPEG
   * image, and then the `Creation` error wins; so `Copyright` alone, or any set of
   * flags on a JPEG image, always validates.
   */
  lemma OnlyJpegMayPreserveCreationOrLocation(metadata: PM.Bits, imageType: string)
    ensures PreserveContent(metadata, imageType).Failure?
      <==> (PM.HasFlag(metadata, PM.Creation) || PM.HasFlag(metadata, PM.Location)) && imageType != JpegType
    ensures PM.HasFlag(metadata, PM.Creation) && imageType != JpegType
      ==> PreserveContent(metadata, imageType) == Failure(InvalidOperation(CreationRequiresJpeg))
    ensures !PM.HasFlag(metadata, PM.Creation) && PM.HasFlag(metadata, PM.Location) && imageType != JpegType
      ==> PreserveContent(metadata, imageType) == Failure(InvalidOperation(LocationRequiresJpeg))
  {
    if PM.HasFlag(metadata, PM.Creation) || PM.HasFlag(metadata, PM.Location) {
      assert metadata != PM.Value(PM.None);
    }
  }

  /**
   * A built body names each preservable member exactly when its flag is set, lists
   * nothing else, and keeps the order copyright, creation, location.
   */
  lemma PreserveListFollowsFlags(metadata: PM.Bits, imageType: string)
    requires PreserveContent(metadata, imageType).Success? && PreserveContent(metadata, imageType).value.PreserveBody?
    ensures var names := PreserveContent(metadata, imageType).value.preserve;
      && metadata != PM.Value(PM.None)
      && ("copyright" in names <==> PM.HasFlag(metadata, PM.Copyright))
      && ("creation" in names <==> PM.HasFlag(metadata, PM.Creation))
      && ("location" in names <==> PM.HasFlag(metadata, PM.Location))
      && RankedFrom(names, 0)
  {
    SelectedMembership(PreserveOrder, metadata, PM.Copyright);
    SelectedMembership(PreserveOrder, metadata, PM.Creation);
    SelectedMembership(PreserveOrder, metadata, PM.Location);
    SelectedAscending(PreserveOrder, metadata);
  }

  /**
   * `Download(compressResponse, metadata)`: rejects a null response, builds the body
   * before sending, and sends one GET to the output URL on the response's client.
   */
  function Download(response: Option<CompressResponse>, metadata: PM.Bits, network: Network): (o: Outcome<HttpReply>)
    ensures response.None? ==> o == Outcome(None, Failure(ArgumentNull("compressResponse")))
    ensures o.sent.None? <==> response.None? || PreserveContent(metadata, response.value.output.imageType).Failure?
    ensures o.sent.None? ==> o.result.Failure? && !o.result.error.Api?
    ensures response.Some? && PreserveContent(metadata, response.value.output.imageType).Failure? ==>
      o.result == Failure(PreserveContent(metadata, response.value.output.imageType).error)
    ensures o.sent.Some? ==>
      && o.sent.value.client == response.value.client
      && o.sent.value.request.verb == Get
      && o.sent.value.request.url == response.value.output.url
      && PreserveContent(metadata, response.value.output.imageType) == Success(o.sent.value.request.content)
      && o.result == Receive(network(o.sent.value.client, o.sent.value.request))
  {
    if response.None? then Outcome(None, Failure(ArgumentNull("compressResponse")))
    else
      var r := response.value;
      match PreserveContent(metadata, r.output.imageType)
      case Failure(e) => Outcome(None, Failure(e))
      case Success(body) => Send(network, r.client, Request(Get, r.output.url, body))
  }

  /**
   * `Download(Task<compressResponse>, metadata)`: rejects a null task, passes on the
   * exception of a faulted one, and otherwise downloads the awaited response.
   */
  function DownloadPending(pending: Option<Task<Option<CompressResponse>>>, metadata: PM.Bits, network: Network): (o: Outcome<HttpReply>)
    ensures pending.None? ==> o == Outcome(None, Failure(ArgumentNull("compressResponse")))
    ensures pending.Some? && pending.value.Faulted? ==> o == Outcome(None, Failure(pending.value.exception))
    ensures pending.Some? && pending.value.Completed? ==> o == Download(pending.value.result, metadata, network)
    ensures pending == Some(Completed(None)) ==> o == Outcome(None, Failure(ArgumentNull("compressResponse")))
    ensures o.sent.Some? ==> pending.Some? && pending.value.Completed? && pending.value.result.Some?
  {
    if pending.None? then Outcome(None, Failure(ArgumentNull("compressResponse")))
    else match pending.value
      case Faulted(e) => Outcome(None, Failure(e))
      case Completed(response) => Download(response, metadata, network)
  }

  /** A metadata validation failure means no request is sent, through either overload. */
  lemma InvalidMetadataSendsNothing(pending: Task<Option<CompressResponse>>, metadata: PM.Bits, network: Network)
    requires pending.Completed? && pending.result.Some?
    requires var t := pending.result.value.output.imageType;
      (PM.HasFlag(metadata, PM.Creation) || PM.HasFlag(metadata, PM.Location)) && t != JpegType
    ensures DownloadPending(Some(pending), metadata, network).sent.None?
    ensures DownloadPending(Some(pending), metadata, network).result.Failure?
    ensures DownloadPending(Some(pending), metadata, network).result.error.InvalidOperation?
  {
    OnlyJpegMayPreserveCreationOrLocation(metadata, pending.result.value.output.imageType);
  }

  /**
   * For a JPEG output every flag combination gets its request sent; the result is the
   * reply when its status is 2xx and the API exception with the reply's fields otherwise.
   */
  lemma JpegDownloadAlwaysSends(response: CompressResponse, metadata: PM.Bits, network: Network)
    requires response.output.imageType == JpegType
    ensures var o := Download(Some(response), metadata, network);
      && o.sent.Some?
      && var reply := network(response.client, o.sent.value.request);
      && (IsSuccessStatusCode(reply.statusCode) ==> o.result == Success(reply))
      && (!IsSuccessStatusCode(reply.statusCode) ==>
            o.result == Failure(Api(reply.statusCode, reply.reasonPhrase, reply.errorBody.error, reply.errorBody.message)))
  {
    OnlyJpegMayPreserveCreationOrLocation(metadata, JpegType);
  }

  /** With the default metadata the request carries no body, whatever the image type. */
  lemma DefaultDownloadHasNoBody(response: CompressResponse, network: Network)
    ensures Download(Some(response), DefaultMetadata, network).sent
      == Some(Dispatch(response.client, Request(Get, response.output.url, NoContent)))
  {
  }
}
