/** The values of src/types.rs: headers, requests, the status code with its
    reason phrase, the response, its wire form, and the response builder. */
module Types {
  import opened Text
  import Utf8
  import Wrappers

  datatype HttpHeader = HttpHeader(name: string, value: string)

  /** The request the request-line parser produces, with the header list that
      `get_header` searches. The Rust field `method` is `verb` here, since
      `method` is a Dafny keyword. */
  datatype HttpRequest = HttpRequest(verb: string, path: string, version: string, headers: seq<HttpHeader>)

  /** `HttpRequest::get_header` on the request's header list: the value of the
      first header whose name equals `name` exactly (case matters), or the
      empty string when no header has that name. */
  function GetHeader(headers: seq<HttpHeader>, name: string): (v: string)
    ensures (forall i :: 0 <= i < |headers| ==> headers[i].name != name) ==> v == ""
    ensures forall i :: 0 <= i < |headers| && headers[i].name == name
                        && (forall j :: 0 <= j < i ==> headers[j].name != name)
                        ==> v == headers[i].value
    decreases |headers|
  {
    if |headers| == 0 then ""
    else if headers[0].name == name then headers[0].value
    else
      var v := GetHeader(headers[1..], name);
      assert forall i :: 1 <= i < |headers| ==> headers[i] == headers[1..][i - 1];
      v
  }

  datatype StatusCode = Ok | NotFound

  predicate IsDigit(c: char) {
    '0' <= c <= '9'
  }

  /** The status code and reason phrase of the status line: three digits, a
      space and a non-empty reason, as section 4 of RFC 9112 lays it out; the
      digits are `200` exactly for `Ok`. */
  function ReasonPhrase(s: StatusCode): (p: string)
    ensures |p| > 4 && IsDigit(p[0]) && IsDigit(p[1]) && IsDigit(p[2]) && p[3] == ' '
    ensures p[..3] == "200" <==> s == Ok
  {
    match s
    case Ok => "200 OK"
    case NotFound => "404 Not Found"
  }

  /** Distinct status codes render distinctly, so the status line names the status. */
  lemma ReasonPhraseInjective(s: StatusCode, t: StatusCode)
    ensures ReasonPhrase(s) == ReasonPhrase(t) ==> s == t
  {
  }

  datatype Response = Response(status: StatusCode, headers: seq<string>, content: string)

  const Protocol: string := "HTTP/1.1"

  function StatusLine(s: StatusCode): string {
    Protocol + " " + ReasonPhrase(s) + CRLF
  }

  /** `Display for Response`: the status line, the header lines joined by CRLF,
      two CRLFs, then the content. It starts with the status line, and the
      content comes last, after an empty line, with nothing appended. */
  function Render(r: Response): (out: string)
    ensures IsPrefix(StatusLine(r.status), out)
    ensures |out| >= |r.content| + 4
    ensures out[|out| - |r.content| - 4..] == CRLF + CRLF + r.content
  {
    var tail := CRLF + CRLF + r.content;
    var out := StatusLine(r.status) + Join(r.headers, CRLF) + tail;
    assert out == StatusLine(r.status) + Join(r.headers, CRLF) + CRLF + CRLF + r.content;
    assert out[|out| - |tail|..] == tail;
    out
  }

  /** `Response::as_bytes`: the UTF-8 bytes of the rendered response, which a
      strict UTF-8 decoder reads back to the rendered text. */
  function AsBytes(r: Response): (bs: seq<Utf8.byte>)
    ensures Utf8.Decode(bs) == Wrappers.Some(Render(r))
  {
    Utf8.DecodeEncode(Render(r));
    Utf8.Encode(Render(r))
  }

  /** The message shape of section 2.1 of RFC 9112: status line, every header
      line ended by CRLF, an empty line, then the content. */
  function Rfc9112Message(r: Response): string {
    StatusLine(r.status) + Terminated(r.headers, CRLF) + CRLF + r.content
  }

  /** With at least one header the rendering is the RFC 9112 message. */
  lemma RenderWithHeadersIsRfc9112(r: Response)
    requires |r.headers| > 0
    ensures Render(r) == Rfc9112Message(r)
  {
  }

  /** With no headers the rendering has one empty line too many: the status
      line, itself ended by CRLF, is followed by two more CRLFs where the RFC
      has one. */
  lemma RenderWithoutHeaders(r: Response)
    requires r.headers == []
    ensures Render(r) == StatusLine(r.status) + CRLF + CRLF + r.content
    ensures Rfc9112Message(r) == StatusLine(r.status) + CRLF + r.content
    ensures Render(r) != Rfc9112Message(r)
  {
  }

  /** The bytes of a 200 response without headers. */
  lemma RenderOkWithoutHeaders(content: string)
    ensures Render(Response(Ok, [], content)) == "HTTP/1.1 200 OK\r\n\r\n\r\n" + content
  {
  }

  /** Header line `i` appears unaltered, in vector order: after the status
      line and the earlier header lines, and followed by CRLF. */
  lemma RenderHeaderLine(r: Response, i: nat)
    requires i < |r.headers|
    ensures Render(r) == StatusLine(r.status) + Terminated(r.headers[..i], CRLF) + r.headers[i]
                         + CRLF + Terminated(r.headers[i + 1..], CRLF) + CRLF + r.content
  {
    var s, h, c := StatusLine(r.status), r.headers[i], r.content;
    var t1, t2 := Terminated(r.headers[..i], CRLF), Terminated(r.headers[i + 1..], CRLF);
    TerminatedAt(r.headers, i, CRLF);
    RenderWithHeadersIsRfc9112(r);
    calc {
      s + Terminated(r.headers, CRLF);
      s + (t1 + h + (CRLF + t2));
      { Assoc(s, t1 + h, CRLF + t2); }
      s + (t1 + h) + (CRLF + t2);
      { Assoc(s, t1, h); }
      s + t1 + h + (CRLF + t2);
      { Assoc(s + t1 + h, CRLF, t2); }
      s + t1 + h + CRLF + t2;
    }
  }

  /** The bytes on the wire end with the UTF-8 bytes of the content. */
  lemma AsBytesEndsWithContent(r: Response)
    ensures var bs := AsBytes(r); var cs := Utf8.Encode(r.content);
            |bs| >= |cs| && bs[|bs| - |cs|..] == cs
  {
    var s := Render(r);
    var front := s[..|s| - |r.content|];
    assert s == front + r.content;
    Utf8.EncodeAppend(front, r.content);
  }

  /** `ResponseBuilder`: the parts of a response not yet built. */
  datatype ResponseBuilder = ResponseBuilder(status: StatusCode, headers: seq<string>, content: string)

  /** `ResponseBuilder::new`. */
  function NewBuilder(): (b: ResponseBuilder)
    ensures b.status == Ok && b.headers == [] && b.content == ""
  {
    ResponseBuilder(Ok, [], "")
  }

  /** `ResponseBuilder::status_code`: replaces the status only. */
  function WithStatusCode(b: ResponseBuilder, s: StatusCode): (b': ResponseBuilder)
    ensures b'.status == s && b'.headers == b.headers && b'.content == b.content
  {
    b.(status := s)
  }

  /** `ResponseBuilder::content`: replaces the content only. */
  function WithContent(b: ResponseBuilder, c: string): (b': ResponseBuilder)
    ensures b'.content == c && b'.status == b.status && b'.headers == b.headers
  {
    b.(content := c)
  }

  /** `ResponseBuilder::build`. */
  function Build(b: ResponseBuilder): (r: Response)
    ensures r.status == b.status && r.headers == b.headers && r.content == b.content
  {
    Response(b.status, b.headers, b.content)
  }

  /** The two setters touch different parts, and a later call of the same
      setter overrides an earlier one. */
  lemma SettersCommuteAndOverride(b: ResponseBuilder, s: StatusCode, t: StatusCode, c: string, d: string)
    ensures WithContent(WithStatusCode(b, s), c) == WithStatusCode(WithContent(b, c), s)
    ensures WithStatusCode(WithStatusCode(b, s), t) == WithStatusCode(b, t)
    ensures WithContent(WithContent(b, c), d) == WithContent(b, d)
  {
  }
}
