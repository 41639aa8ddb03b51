/**
 * The response wrappers: the compress result the chained calls start from, and the
 * base response that reads the `Compression-Count` header once, when it is built.
 */
module Responses {
  import opened Wrappers
  import opened Int32Text
  import opened Http

  /** The part of the compress result's `Output` that the chained calls read. */
  datatype ApiOutput = ApiOutput(imageType: string, url: string)

  /** A compress response: its output and the client that fetched it. */
  datatype CompressResponse = CompressResponse(output: ApiOutput, client: ClientHandle)

  const CompressionCountHeader := "Compression-Count"

  /** The count a response reports for the given headers: the first header value read as an Int32, else 0. */
  function CompressionCountOf(headers: seq<Header>): (count: int32)
    ensures HeaderValues(headers, CompressionCountHeader) == [] ==> count == 0
    ensures count != 0 ==>
      HeaderValues(headers, CompressionCountHeader) != [] && ParseInt32(HeaderValues(headers, CompressionCountHeader)[0]) == Some(count)
  {
    var values := HeaderValues(headers, CompressionCountHeader);
    if values == [] then 0 else TryParseInt32(values[0]).1
  }

  /** `Way2enjoyResponse`: both fields are set by the constructor and never change afterwards. */
  class Way2enjoyResponse {
    const httpResponseMessage: HttpReply
    const compressionCount: int32

    constructor (msg: HttpReply)
      ensures httpResponseMessage == msg
      ensures compressionCount == CompressionCountOf(msg.headers)
    {
      var compressionCountHeaders := HeaderValues(msg.headers, CompressionCountHeader);
      if compressionCountHeaders != [] {
        var (_, parsed) := TryParseInt32(compressionCountHeaders[0]);
        compressionCount := parsed;
      } else {
        compressionCount := 0;
      }
      httpResponseMessage := msg;
    }
  }

  /** Without a `Compression-Count` header the count is 0. */
  lemma CountWithoutHeader(headers: seq<Header>)
    requires HeaderValues(headers, CompressionCountHeader) == []
    ensures CompressionCountOf(headers) == 0
  {
  }

  /** The first header value, when it parses as an Int32, is the count; otherwise the count is 0. */
  lemma CountFromFirstValue(headers: seq<Header>)
    requires HeaderValues(headers, CompressionCountHeader) != []
    ensures var first := HeaderValues(headers, CompressionCountHeader)[0];
      CompressionCountOf(headers) == (if ParseInt32(first).Some? then ParseInt32(first).value else 0)
  {
  }

  /** Only the first value is consulted: headers received after it do not change the count. */
  lemma CountIgnoresLaterHeaders(headers: seq<Header>, later: seq<Header>)
    requires HeaderValues(headers, CompressionCountHeader) != []
    ensures CompressionCountOf(headers + later) == CompressionCountOf(headers)
  {
    HeaderValuesAppend(headers, later, CompressionCountHeader);
  }

  /** A header written with `n.ToString()`, under any spelling of its name, is reported as `n`, whatever follows it. */
  lemma CountOfFormattedHeader(name: string, n: int32, rest: seq<Header>)
    requires EqualsIgnoreCase(name, CompressionCountHeader)
    ensures CompressionCountOf([Header(name, FormatInt32(n))] + rest) == n
  {
    SingleHeaderValue(Header(name, FormatInt32(n)), rest, CompressionCountHeader);
    FormatParseRoundTrip(n);
  }

  /** `Compression-Count: 99` is reported as 99. */
  lemma CountOfNinetyNine()
    ensures CompressionCountOf([Header("Compression-Count", "99")]) == 99
  {
    assert FormatInt32(99) == "99";
    CountOfFormattedHeader("Compression-Count", 99, []);
    assert [Header("Compression-Count", "99")] + [] == [Header("Compression-Count", "99")];
  }

  /** A signed value is kept: `compression-count: -3` is reported as -3. */
  lemma CountOfNegativeValue()
    ensures CompressionCountOf([Header("compression-count", "-3")]) == -3
  {
    assert FormatInt32(-3) == "-3";
    CountOfFormattedHeader("compression-count", -3, []);
    assert [Header("compression-count", "-3")] + [] == [Header("compression-count", "-3")];
  }

  /** A value that is not a number is reported as 0. */
  lemma CountOfUnparsableValue()
    ensures CompressionCountOf([Header("Compression-Count", "lots")]) == 0
  {
    var h := [Header("Compression-Count", "lots")];
    SingleHeaderValue(h[0], [], CompressionCountHeader);
    assert [h[0]] + [] == h;
    assert ParseInt32("lots") == None by {
      assert TrimEnd(TrimStart("lots")) == "lots";
      assert !IsDigit("lots"[0]);
    }
  }

  /** A value beyond the int32 range is reported as 0, under any spelling of the name. */
  lemma CountOfOutOfRangeValue(name: string, digits: string, negative: bool, rest: seq<Header>)
    requires EqualsIgnoreCase(name, CompressionCountHeader)
    requires digits != [] && AllDigits(digits)
    requires if negative then DigitsValue(digits) > 0x8000_0000 else DigitsValue(digits) >= 0x8000_0000
    ensures CompressionCountOf([Header(name, if negative then "-" + digits else digits)] + rest) == 0
  {
    var value := if negative then "-" + digits else digits;
    SingleHeaderValue(Header(name, value), rest, CompressionCountHeader);
    OutOfRangeRejected(digits, negative);
  }

  /** `Compression-Count: 2147483648`, one past `int.MaxValue`, is reported as 0. */
  lemma CountOfIntMaxPlusOne()
    ensures CompressionCountOf([Header("Compression-Count", "2147483648")]) == 0
  {
    assert DigitsValue("2") == 2;
    assert "21"[..1] == "2";
    assert DigitsValue("21") == 21;
    assert "214"[..2] == "21";
    assert DigitsValue("214") == 214;
    assert "2147"[..3] == "214";
    assert DigitsValue("2147") == 2147;
    assert "21474"[..4] == "2147";
    assert DigitsValue("21474") == 21474;
    assert "214748"[..5] == "21474";
    assert DigitsValue("214748") == 214748;
    assert "2147483"[..6] == "214748";
    assert DigitsValue("2147483") == 2147483;
    assert "21474836"[..7] == "2147483";
    assert DigitsValue("21474836") == 21474836;
    assert "214748364"[..8] == "21474836";
    assert DigitsValue("214748364") == 214748364;
    assert "2147483648"[..9] == "214748364";
    assert DigitsValue("2147483648") == 2147483648;
    CountOfOutOfRangeValue("Compression-Count", "2147483648", false, []);
    assert [Header("Compression-Count", "2147483648")] + [] == [Header("Compression-Count", "2147483648")];
  }
}
