/** `Way2enjoyApiException`: the structured error raised for a non-success reply. */
module ApiExceptions {
  import opened Wrappers
  import opened Int32Text
  import opened Errors

  const MessagePrefix := "Api Service returned a non-success status code when attempting an operation on an image: "

  /** The text of `Message`: "<prefix>{StatusCode} - {StatusReasonPhrase}. {ErrorTitle}, {ErrorMessage}". */
  function FormatMessage(statusCode: int32, statusReasonPhrase: string, errorTitle: string, errorMessage: string): (m: string)
    ensures |m| == |MessagePrefix| + |FormatInt32(statusCode)| + 3 + |statusReasonPhrase| + 2 + |errorTitle| + 2 + |errorMessage|
    ensures m[..|MessagePrefix|] == MessagePrefix
    ensures m[|m| - |errorMessage| - 2..] == ", " + errorMessage
  {
    MessagePrefix + (FormatInt32(statusCode) + (" - " + (statusReasonPhrase + (". " + (errorTitle + (", " + errorMessage))))))
  }

  /** An entry of the exception's `Data` dictionary: a boxed int or a string. */
  datatype DataValue = IntValue(i: int32) | TextValue(s: string)

  class Way2enjoyApiException {
    const statusCode: int32
    const statusReasonPhrase: string
    const errorTitle: string
    const errorMessage: string
    var data: map<string, DataValue>

    constructor (statusCode: int32, statusReasonPhrase: string, errorTitle: string, errorMessage: string)
      ensures this.statusCode == statusCode && this.statusReasonPhrase == statusReasonPhrase
      ensures this.errorTitle == errorTitle && this.errorMessage == errorMessage
      ensures data.Keys == {"ErrorTitle", "ErrorMessage", "StatusCode", "StatusReasonPhrase"}
      ensures data["ErrorTitle"] == TextValue(errorTitle) && data["ErrorMessage"] == TextValue(errorMessage)
      ensures data["StatusCode"] == IntValue(statusCode) && data["StatusReasonPhrase"] == TextValue(statusReasonPhrase)
    {
      this.errorTitle := errorTitle;
      this.errorMessage := errorMessage;
      this.statusCode := statusCode;
      this.statusReasonPhrase := statusReasonPhrase;
      data := map[];
      new;
      AddData("ErrorTitle", TextValue(this.errorTitle));
      AddData("ErrorMessage", TextValue(this.errorMessage));
      AddData("StatusCode", IntValue(this.statusCode));
      AddData("StatusReasonPhrase", TextValue(this.statusReasonPhrase));
    }

    /** `Data.Add`: the key must not be present yet. */
    method AddData(key: string, value: DataValue)
      requires key !in data
      modifies this`data
      ensures data == old(data)[key := value]
    {
      data := data[key := value];
    }

    /** `Message`: built from the four fields alone. */
    function Message(): (m: string)
      ensures m == FormatMessage(statusCode, statusReasonPhrase, errorTitle, errorMessage)
      ensures m[..|MessagePrefix|] == MessagePrefix && m[|m| - |errorMessage|..] == errorMessage
    {
      FormatMessage(statusCode, statusReasonPhrase, errorTitle, errorMessage)
    }
  }

  /** The exception a failed call raises, as an object; `e` is the value the model returns for it. */
  method Raise(e: Error) returns (x: Way2enjoyApiException)
    requires e.Api?
    ensures fresh(x)
    ensures x.statusCode == e.statusCode && x.statusReasonPhrase == e.statusReasonPhrase
    ensures x.errorTitle == e.errorTitle && x.errorMessage == e.errorMessage
  {
    x := new Way2enjoyApiException(e.statusCode, e.statusReasonPhrase, e.errorTitle, e.errorMessage);
  }

  /** Two exceptions with the same four fields have the same message, whatever their `Data` holds. */
  lemma MessageDependsOnlyOnFields(a: Way2enjoyApiException, b: Way2enjoyApiException)
    requires a.statusCode == b.statusCode && a.statusReasonPhrase == b.statusReasonPhrase
    requires a.errorTitle == b.errorTitle && a.errorMessage == b.errorMessage
    ensures a.Message() == b.Message()
  {
  }

  /**
   * The message starts with the fixed prefix, and the status code can be read back from
   * the text between the prefix and the first " - " that follows it.
   */
  lemma {:induction false} MessageCarriesStatusCode(statusCode: int32, statusReasonPhrase: string, errorTitle: string, errorMessage: string)
    ensures var m := FormatMessage(statusCode, statusReasonPhrase, errorTitle, errorMessage);
      var k := |MessagePrefix| + |FormatInt32(statusCode)|;
      && |m| >= k + 3
      && m[..|MessagePrefix|] == MessagePrefix
      && ParseInt32(m[|MessagePrefix|..k]) == Some(statusCode)
      && m[k..k + 3] == " - "
  {
    var m := FormatMessage(statusCode, statusReasonPhrase, errorTitle, errorMessage);
    var code := FormatInt32(statusCode);
    var k := |MessagePrefix| + |code|;
    var tail := " - " + (statusReasonPhrase + (". " + (errorTitle + (", " + errorMessage))));
    assert m == MessagePrefix + (code + tail);
    assert m[|MessagePrefix|..k] == code;
    assert m[k..k + 3] == tail[..3];
    FormatParseRoundTrip(statusCode);
  }

  /** `200.ToString()` is "200". */
  lemma FormatTwoHundred()
    ensures FormatInt32(200) == "200"
  {
    assert NatDigits(2) == "2";
    assert NatDigits(20) == NatDigits(2) + "0" == "20";
    assert NatDigits(200) == NatDigits(20) + "0" == "200";
  }

  /** The message of an exception built as (200, "status", "title", "message"). */
  lemma MessageExample()
    ensures FormatMessage(200, "status", "title", "message") == MessagePrefix + "200 - status. title, message"
  {
    FormatTwoHundred();
    var tail := FormatInt32(200) + (" - " + ("status" + (". " + ("title" + (", " + "message")))));
    assert tail == "200 - status. title, message";
  }
}
