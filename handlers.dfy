/** The route handlers of src/handlers.rs: each builds one response from the
    request and none of them reports an error. */
module Handlers {
  import opened Text
  import opened Wrappers
  import opened Types
  import Parse

  const EchoPrefix: string := "/echo/"

  /** `respond_with_200`: a default response, status 200 with nothing else. */
  function RespondWith200(): (r: Result<Response>)
    ensures r.Success?
    ensures r.value.status == Ok && r.value.headers == [] && r.value.content == ""
  {
    Success(Build(NewBuilder()))
  }

  /** `respond_with_404`: status 404 with no headers and no content. */
  function RespondWith404(): (r: Result<Response>)
    ensures r.Success?
    ensures r.value.status == NotFound && r.value.headers == [] && r.value.content == ""
  {
    Success(Build(WithStatusCode(NewBuilder(), NotFound)))
  }

  /** `respond_with_path_content`: echoes what follows `/echo/` in the path.
      The Rust code unwraps `strip_prefix` (src/handlers.rs:16), so any other path panics; callers must
      pass a path that starts with `/echo/`. */
  function RespondWithPathContent(req: HttpRequest): (r: Result<Response>)
    requires IsPrefix(EchoPrefix, req.path)
    ensures r.Success?
    ensures r.value.status == Ok && r.value.headers == []
    ensures EchoPrefix + r.value.content == req.path
  {
    var content := StripPrefix(req.path, EchoPrefix).value;
    Success(Build(WithContent(NewBuilder(), content)))
  }

  /** `respond_with_user_agent`: status 200 whose content is the request's
      `User-Agent` header, as `get_header` finds it. */
  function RespondWithUserAgent(req: HttpRequest): (r: Result<Response>)
    ensures r.Success?
    ensures r.value.status == Ok && r.value.headers == []
    ensures r.value.content == GetHeader(req.headers, "User-Agent")
  {
    Success(Build(WithContent(WithStatusCode(NewBuilder(), Ok), GetHeader(req.headers, "User-Agent"))))
  }

  /** The content of the echo response is exactly the rest of the path after
      `/echo/`; with the prefix put back it is the path again. */
  lemma EchoContentIsPathSuffix(req: HttpRequest)
    requires IsPrefix(EchoPrefix, req.path)
    ensures RespondWithPathContent(req).value.content == req.path[|EchoPrefix|..]
  {
  }

  /** The user-agent response carries the first `User-Agent` header's value. */
  lemma UserAgentIsFirstMatch(req: HttpRequest, i: nat)
    requires i < |req.headers| && req.headers[i].name == "User-Agent"
    requires forall j :: 0 <= j < i ==> req.headers[j].name != "User-Agent"
    ensures RespondWithUserAgent(req).value.content == req.headers[i].value
  {
  }

  /** Without a `User-Agent` header the user-agent response is empty. */
  lemma UserAgentAbsent(req: HttpRequest)
    requires forall j :: 0 <= j < |req.headers| ==> req.headers[j].name != "User-Agent"
    ensures RespondWithUserAgent(req).value.content == ""
  {
  }

  /** What the 200 and 404 handlers put on the wire: the status line and, as
      the serialiser does for an empty header list, two further CRLFs. */
  lemma StatusHandlersOnTheWire()
    ensures Render(RespondWith200().value) == "HTTP/1.1 200 OK\r\n\r\n\r\n"
    ensures Render(RespondWith404().value) == "HTTP/1.1 404 Not Found\r\n\r\n\r\n"
  {
  }

  /** A GET of `/echo/<word>` parses, and the echo handler answers with a 200
      whose wire form ends in `word`. */
  lemma EchoEndToEnd(word: string, rest: string)
    requires Parse.IsPath(word)
    ensures var parsed := Parse.ParseRequest("GET " + EchoPrefix + word + " HTTP/1.1\r\n" + rest);
            && parsed.Success?
            && parsed.value.path == EchoPrefix + word
            && IsPrefix(EchoPrefix, parsed.value.path)
            && RespondWithPathContent(parsed.value).value.content == word
            && Render(RespondWithPathContent(parsed.value).value) == "HTTP/1.1 200 OK\r\n\r\n\r\n" + word
  {
    var path := EchoPrefix + word;
    assert Parse.IsPath(path) by {
      forall i | 0 <= i < |path| ensures path[i] !in Parse.PathExcluded {
        if i >= |EchoPrefix| {
          assert path[i] == word[i - |EchoPrefix|];
        }
      }
    }
    var req := HttpRequest("GET", path, Parse.Http11, []);
    assert Parse.WellFormed(req);
    assert Parse.RequestLine(req) + rest == "GET " + EchoPrefix + word + " HTTP/1.1\r\n" + rest;
    Parse.ParseRequestRoundTrip(req, rest);
    assert path[..|EchoPrefix|] == EchoPrefix;
    var c := RespondWithPathContent(req).value.content;
    assert c == word by {
      assert c == (EchoPrefix + c)[|EchoPrefix|..];
    }
    RenderOkWithoutHeaders(word);
  }
}
