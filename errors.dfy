/** The error path of every request (molgenis/errors.py): an HTTP error from
    the server becomes a MolgenisRequestError whose message carries the
    server's own error message when the response body holds one. */
module Errors {
  import opened PyData

  /** The part of an HTTP response the error path reads: its status and its
      body, which may be absent. */
  datatype Response = Response(statusCode: int, content: Option<seq<byte>>)

  /** `bool(response)`: an HTTP response is true exactly when it is ok, that
      is when its status is not a client (4xx) or server (5xx) error. */
  predicate ResponseTruthy(r: Response) {
    !(400 <= r.statusCode < 600)
  }

  /** The exception the HTTP layer raised, as read here: `args[0]` and the
      response it belongs to. */
  datatype HttpError = HttpError(message: Value, response: Response)

  /** A MolgenisRequestError: its `message`, the response it was given (its
      second argument, `None` for the default `False`) and its `response`
      attribute, which exists only when the given response is true. */
  datatype MolgenisRequestError = MolgenisRequestError(message: Value, given: Option<Response>, response: Option<Response>)

  /** `MolgenisRequestError(error, response)`. */
  function NewRequestError(error: Value, response: Option<Response>): (e: MolgenisRequestError)
    ensures e.message == error && e.given == response
    ensures e.response.Some? <==> response.Some? && ResponseTruthy(response.value)
    ensures e.response.Some? ==> e.response == response
  {
    MolgenisRequestError(error, response, if response.Some? && ResponseTruthy(response.value) then response else None)
  }

  /** How `raise_exception` ends: it raises a MolgenisRequestError, or an
      error body without `errors[0].message` makes the lookup itself raise
      (a KeyError, IndexError or TypeError, none of which is caught).  There
      is no case for a normal return. */
  datatype Raised = RequestError(error: MolgenisRequestError) | LookupFailure

  // ---------------------------------------------------------------------------
  // repr() of bytes

  function HexDigit(d: nat): char
    requires d < 16
  {
    "0123456789abcdef"[d]
  }

  /** Python's choice of quote for a bytes literal: double quotes only when
      the bytes hold a single quote and no double quote. */
  function BytesQuote(bs: seq<byte>): (q: char)
    ensures q == '\'' || q == '"'
    ensures q == '"' <==> 39 in bs && 34 !in bs
  {
    if 39 in bs && 34 !in bs then '"' else '\''
  }

  /** One byte inside a bytes literal quoted with `quote`. */
  function ByteRepr(b: byte, quote: char): (r: string)
    ensures |r| >= 1
  {
    if b == 9 then "\\t"
    else if b == 10 then "\\n"
    else if b == 13 then "\\r"
    else if b == 92 || b as int == quote as int then ['\\', b as int as char]
    else if b < 32 || b >= 127 then ['\\', 'x', HexDigit(b as int / 16), HexDigit(b as int % 16)]
    else [b as int as char]
  }

  function BytesBody(bs: seq<byte>, quote: char): string
    decreases |bs|
  {
    if bs == [] then [] else ByteRepr(bs[0], quote) + BytesBody(bs[1..], quote)
  }

  /** `str(content)` for a bytes value, e.g. `b'Not found'`. */
  function BytesRepr(bs: seq<byte>): string {
    var q := BytesQuote(bs);
    "b" + [q] + BytesBody(bs, q) + [q]
  }

  /** Printable ASCII without quotes or backslashes shows as itself. */
  predicate Plain(bs: seq<byte>) {
    forall i :: 0 <= i < |bs| ==> 32 <= bs[i] < 127 && bs[i] != 39 && bs[i] != 34 && bs[i] != 92
  }

  function AsChars(bs: seq<byte>): (s: string)
    ensures |s| == |bs|
    ensures forall i :: 0 <= i < |bs| ==> s[i] as int == bs[i] as int
  {
    seq(|bs|, i requires 0 <= i < |bs| => bs[i] as int as char)
  }

  lemma {:induction false} BytesBodyPlain(bs: seq<byte>, quote: char)
    requires Plain(bs) && (quote == '\'' || quote == '"')
    ensures BytesBody(bs, quote) == AsChars(bs)
    decreases |bs|
  {
    if bs != [] {
      assert Plain(bs[1..]) by {
        forall i | 0 <= i < |bs[1..]| ensures 32 <= bs[1..][i] < 127 && bs[1..][i] != 39 && bs[1..][i] != 34 && bs[1..][i] != 92 {
          assert bs[1..][i] == bs[i + 1];
        }
      }
      BytesBodyPlain(bs[1..], quote);
      assert AsChars(bs) == [bs[0] as int as char] + AsChars(bs[1..]);
    }
  }

  /** A plain body renders as `b'<body>'`. */
  lemma BytesReprPlain(bs: seq<byte>)
    requires Plain(bs)
    ensures BytesRepr(bs) == "b'" + AsChars(bs) + "'"
  {
    assert forall i :: 0 <= i < |bs| ==> bs[i] != 39;
    assert 39 !in bs;
    BytesBodyPlain(bs, '\'');
  }

  // ---------------------------------------------------------------------------
  // raise_exception

  /** `json['errors'][0]['message']`: present only when the decoded body is
      an object whose `errors` is a non-empty list starting with an object
      that has a `message`. */
  function ErrorMessageOf(json: Value): (r: Option<Value>)
    ensures r.Some? ==> json.Dict? && Get(json.entries, "errors").Some?
  {
    if json.Dict? then
      match Get(json.entries, "errors")
      case Some(List(items)) =>
        if |items| > 0 && items[0].Dict? then Get(items[0].entries, "message") else None
      case _ => None
    else None
  }

  /** The body MOLGENIS sends for an error yields the message it carries. */
  lemma ErrorMessageOfBody(message: Value, rest: Fields, more: seq<Value>)
    ensures ErrorMessageOf(Dict([Entry("errors", List([Dict([Entry("message", message)] + rest)] + more))])) == Some(message)
  {
    var inner := [Entry("message", message)] + rest;
    assert Get(inner, "message") == Some(message);
  }

  /** `raise_exception(ex)`, with the UTF-8 and JSON decoding of the body as
      `decode`, which gives `None` where Python raises a ValueError. */
  function RaiseException(ex: HttpError, decode: seq<byte> -> Option<Value>): (r: Raised)
    ensures r.RequestError? ==> r.error.message.Str?
  {
    var message := ToStr(ex.message);
    var content := ex.response.content;
    if content.None? || content.value == [] then
      RequestError(NewRequestError(Str(message), None))
    else
      match decode(content.value)
      case None =>
        RequestError(NewRequestError(Str(message + ": " + BytesRepr(content.value)), Some(ex.response)))
      case Some(json) =>
        match ErrorMessageOf(json)
        case None => LookupFailure
        case Some(error) =>
          RequestError(NewRequestError(Str(message + ": " + ToStr(error)), Some(ex.response)))
  }

  /** Without a body the message is `args[0]` itself and no response is given. */
  lemma RaiseWithoutContent(ex: HttpError, decode: seq<byte> -> Option<Value>)
    requires ex.response.content.None? || ex.response.content.value == []
    requires ex.message.Str?
    ensures RaiseException(ex, decode) == RequestError(MolgenisRequestError(ex.message, None, None))
  {
  }

  /** A body with a MOLGENIS error message: `<args[0]>: <message>`, and the
      response is given to the error. */
  lemma RaiseWithServerMessage(ex: HttpError, decode: seq<byte> -> Option<Value>, json: Value, error: Value)
    requires ex.response.content.Some? && ex.response.content.value != []
    requires decode(ex.response.content.value) == Some(json)
    requires ErrorMessageOf(json) == Some(error)
    ensures var r := RaiseException(ex, decode);
      && r.RequestError?
      && r.error.message == Str(ToStr(ex.message) + ": " + ToStr(error))
      && r.error.given == Some(ex.response)
  {
  }

  /** A body that does not decode: `<args[0]>: b'<body>'`. */
  lemma RaiseWithUndecodable(ex: HttpError, decode: seq<byte> -> Option<Value>)
    requires ex.response.content.Some? && ex.response.content.value != []
    requires decode(ex.response.content.value).None?
    ensures var r := RaiseException(ex, decode);
      && r.RequestError?
      && r.error.message == Str(ToStr(ex.message) + ": " + BytesRepr(ex.response.content.value))
      && r.error.given == Some(ex.response)
  {
  }

  /** The only way not to raise a MolgenisRequestError is a decodable body
      without `errors[0].message`. */
  lemma RaiseLookupFailure(ex: HttpError, decode: seq<byte> -> Option<Value>)
    ensures RaiseException(ex, decode).LookupFailure? <==>
      && ex.response.content.Some? && ex.response.content.value != []
      && decode(ex.response.content.value).Some?
      && ErrorMessageOf(decode(ex.response.content.value).value).None?
  {
  }

  /** An error response (4xx or 5xx) is false, so the raised error never has
      a `response` attribute; the response is only among its arguments. */
  lemma ErrorResponseNotAttached(ex: HttpError, decode: seq<byte> -> Option<Value>)
    requires 400 <= ex.response.statusCode < 600
    ensures RaiseException(ex, decode).RequestError? ==> RaiseException(ex, decode).error.response.None?
  {
  }
}
