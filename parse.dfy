/** The request-line parser of src/parse.rs. Each nom combinator it uses is a
    function from the input to either the unconsumed input and an output, or
    failure. Parsing recognises `method SP path SP "HTTP/1.1" CRLF`, the
    request-line of section 3 of RFC 9112, with the leniencies of the code. */
module Parse {
  import opened Text
  import opened Wrappers
  import Types

  /** nom's `IResult`: on success the rest of the input and the output. */
  datatype IResult<+T> = Parsed(rest: string, value: T) | Fail

  // ---------------------------------------------------------------------
  // The nom combinators

  /** nom `char(c)`: exactly the character `c`. */
  function CharP(c: char, input: string): (r: IResult<char>)
    ensures r.Parsed? <==> |input| > 0 && input[0] == c
    ensures r.Parsed? ==> r.value == c && [c] + r.rest == input
  {
    if |input| > 0 && input[0] == c then Parsed(input[1..], c) else Fail
  }

  /** nom `tag(t)`: exactly the literal `t`, case included. */
  function Tag(t: string, input: string): (r: IResult<string>)
    ensures r.Parsed? <==> IsPrefix(t, input)
    ensures r.Parsed? ==> r.value == t && t + r.rest == input
  {
    if IsPrefix(t, input) then
      assert input == t + input[|t|..];
      Parsed(input[|t|..], t)
    else Fail
  }

  /** nom `crlf`. */
  function Crlf(input: string): (r: IResult<string>)
    ensures r.Parsed? <==> IsPrefix(CRLF, input)
    ensures r.Parsed? ==> r.value == CRLF && CRLF + r.rest == input
  {
    Tag(CRLF, input)
  }

  predicate IsAlphaWord(w: string) {
    |w| > 0 && forall i :: 0 <= i < |w| ==> IsAsciiAlpha(w[i])
  }

  predicate StartsWithAlpha(s: string) {
    |s| > 0 && IsAsciiAlpha(s[0])
  }

  /** The length of the longest prefix of ASCII letters. */
  function AlphaRun(s: string): (n: nat)
    ensures n <= |s|
    ensures forall i :: 0 <= i < n ==> IsAsciiAlpha(s[i])
    ensures n == |s| || !IsAsciiAlpha(s[n])
    decreases |s|
  {
    if |s| == 0 || !IsAsciiAlpha(s[0]) then 0
    else
      var n := AlphaRun(s[1..]);
      assert forall i :: 1 <= i < n + 1 ==> s[i] == s[1..][i - 1];
      1 + n
  }

  /** nom `alpha1`: the longest non-empty prefix of ASCII letters. */
  function Alpha1(input: string): (r: IResult<string>)
    ensures r.Parsed? <==> StartsWithAlpha(input)
    ensures r.Parsed? ==> r.value + r.rest == input && IsAlphaWord(r.value) && !StartsWithAlpha(r.rest)
  {
    var n := AlphaRun(input);
    if n == 0 then Fail
    else
      assert input == input[..n] + input[n..];
      Parsed(input[n..], input[..n])
  }

  /** nom `many0(none_of(excluded))`: the longest prefix with no character of
      `excluded`. It never fails and may return the empty string. */
  function Many0NoneOf(excluded: set<char>, input: string): (r: IResult<string>)
    ensures r.Parsed?
    ensures r.value + r.rest == input
    ensures forall i :: 0 <= i < |r.value| ==> r.value[i] !in excluded
    ensures r.rest == [] || r.rest[0] in excluded
    decreases |input|
  {
    if |input| == 0 || input[0] in excluded then
      assert [] + input == input;
      Parsed(input, [])
    else
      var tail := Many0NoneOf(excluded, input[1..]);
      ConsAvoiding(excluded, input, tail.value, tail.rest);
      Parsed(tail.rest, [input[0]] + tail.value)
  }

  lemma ConsAvoiding(excluded: set<char>, input: string, value: string, rest: string)
    requires |input| > 0 && input[0] !in excluded
    requires value + rest == input[1..] && forall i :: 0 <= i < |value| ==> value[i] !in excluded
    ensures ([input[0]] + value) + rest == input
    ensures forall i :: 0 <= i < |[input[0]] + value| ==> ([input[0]] + value)[i] !in excluded
  {
  }

  /** `s` begins with `/` and a letter, so a `/`-joined method could go on. */
  predicate ContinuesWithSlashWord(s: string) {
    |s| >= 2 && s[0] == '/' && IsAsciiAlpha(s[1])
  }

  /** What may follow a method: neither a letter nor `/` and a letter. */
  predicate EndsMethod(s: string) {
    !StartsWithAlpha(s) && !ContinuesWithSlashWord(s)
  }

  /** The loop of nom `separated_list1(char('/'), alpha1)` after its first
      element: each round takes a `/` and a letter run; when the `/` is missing
      or no letter follows it, the loop stops before the `/`. */
  function SlashAlphaTail(input: string): (r: (string, seq<string>))
    ensures Prefixed(r.1, "/") + r.0 == input
    ensures forall i :: 0 <= i < |r.1| ==> IsAlphaWord(r.1[i])
    ensures !ContinuesWithSlashWord(r.0)
    ensures r.0 == input || !StartsWithAlpha(r.0)
    decreases |input|
  {
    match CharP('/', input)
    case Fail => (input, [])
    case Parsed(afterSep, _) =>
      match Alpha1(afterSep)
      case Fail => (input, [])
      case Parsed(afterWord, word) =>
        var (rest, more) := SlashAlphaTail(afterWord);
        PrefixedCons(word, more, rest, afterWord, input);
        (rest, [word] + more)
  }

  lemma PrefixedCons(word: string, more: seq<string>, rest: string, afterWord: string, input: string)
    requires Prefixed(more, "/") + rest == afterWord
    requires "/" + (word + afterWord) == input
    requires IsAlphaWord(word) && forall i :: 0 <= i < |more| ==> IsAlphaWord(more[i])
    ensures Prefixed([word] + more, "/") + rest == input
    ensures forall i :: 0 <= i < |[word] + more| ==> IsAlphaWord(([word] + more)[i])
  {
  }

  lemma JoinFirstAndTail(first: string, more: seq<string>, rest: string, afterFirst: string, input: string)
    requires first + afterFirst == input && Prefixed(more, "/") + rest == afterFirst
    requires IsAlphaWord(first) && forall i :: 0 <= i < |more| ==> IsAlphaWord(more[i])
    ensures Join([first] + more, "/") + rest == input
    ensures forall i :: 0 <= i < |[first] + more| ==> IsAlphaWord(([first] + more)[i])
  {
    JoinCons(first, more, "/");
    assert Join([first] + more, "/") + rest == first + (Prefixed(more, "/") + rest);
    assert forall i :: 1 <= i < |[first] + more| ==> ([first] + more)[i] == more[i - 1];
  }

  /** nom `separated_list1(char('/'), alpha1)`: one or more letter runs
      separated by single `/`, as many as the input holds. */
  function SlashSeparatedAlpha1(input: string): (r: IResult<seq<string>>)
    ensures r.Parsed? <==> StartsWithAlpha(input)
    ensures r.Parsed? ==> |r.value| > 0 && (forall i :: 0 <= i < |r.value| ==> IsAlphaWord(r.value[i]))
                          && Join(r.value, "/") + r.rest == input && EndsMethod(r.rest)
  {
    match Alpha1(input)
    case Fail => Fail
    case Parsed(afterFirst, first) =>
      var (rest, more) := SlashAlphaTail(afterFirst);
      JoinFirstAndTail(first, more, rest, afterFirst, input);
      Parsed(rest, [first] + more)
  }

  // ---------------------------------------------------------------------
  // The grammar of the request-line

  /** A method: letters, with single `/` between letter runs, neither first nor last. */
  predicate IsMethod(m: string) {
    && |m| > 0 && IsAsciiAlpha(m[0]) && IsAsciiAlpha(m[|m| - 1])
    && (forall i :: 0 <= i < |m| ==> IsAsciiAlpha(m[i]) || m[i] == '/')
    && (forall i :: 0 <= i < |m| - 1 && m[i] == '/' ==> m[i + 1] != '/')
  }

  const PathExcluded: set<char> := {' ', '\t', '\n'}

  /** A path: any characters but space, tab and line feed; it may be empty. */
  predicate IsPath(p: string) {
    forall i :: 0 <= i < |p| ==> p[i] !in PathExcluded
  }

  const Http11: string := "HTTP/1.1"

  /** Letter runs joined by `/` form a method. */
  lemma {:induction false} JoinedWordsAreMethod(parts: seq<string>)
    requires |parts| > 0
    requires forall i :: 0 <= i < |parts| ==> IsAlphaWord(parts[i])
    ensures IsMethod(Join(parts, "/"))
    decreases |parts|
  {
    if |parts| > 1 {
      var w := parts[0];
      assert IsAlphaWord(w);
      var m := Join(parts[1..], "/");
      assert forall i :: 0 <= i < |parts[1..]| ==> IsAlphaWord(parts[1..][i]) by {
        forall i | 0 <= i < |parts[1..]| ensures IsAlphaWord(parts[1..][i]) {
          assert parts[1..][i] == parts[i + 1];
        }
      }
      JoinedWordsAreMethod(parts[1..]);
      var s := w + "/" + m;
      assert Join(parts, "/") == s;
      assert forall i :: 0 <= i < |w| ==> s[i] == w[i];
      assert s[|w|] == '/';
      assert forall i :: |w| < i < |s| ==> s[i] == m[i - |w| - 1];
    }
  }

  /** A method and what follows it split in just one way. */
  lemma MethodSplitUnique(m1: string, r1: string, m2: string, r2: string)
    requires IsMethod(m1) && EndsMethod(r1)
    requires IsMethod(m2) && EndsMethod(r2)
    requires m1 + r1 == m2 + r2
    ensures m1 == m2 && r1 == r2
  {
    assert m1 == (m1 + r1)[..|m1|];
    assert m2 == (m2 + r2)[..|m2|];
  }

  /** A path and what follows it split in just one way. */
  lemma PathSplitUnique(p1: string, r1: string, p2: string, r2: string)
    requires IsPath(p1) && (r1 == [] || r1[0] in PathExcluded)
    requires IsPath(p2) && (r2 == [] || r2[0] in PathExcluded)
    requires p1 + r1 == p2 + r2
    ensures p1 == p2 && r1 == r2
  {
    assert p1 == (p1 + r1)[..|p1|];
    assert p2 == (p2 + r2)[..|p2|];
  }

  // ---------------------------------------------------------------------
  // The parsers of src/parse.rs

  /** `http_method`: the `/`-joined letter runs at the front of the input, as
      one string. It fails exactly when the input does not start with a letter;
      otherwise the output is the consumed prefix, a method, and the rest cannot
      extend it. */
  function HttpMethod(input: string): (r: IResult<string>)
    ensures r.Parsed? <==> StartsWithAlpha(input)
    ensures r.Parsed? ==> r.value + r.rest == input && IsMethod(r.value) && EndsMethod(r.rest)
  {
    match SlashSeparatedAlpha1(input)
    case Fail => Fail
    case Parsed(rest, parts) =>
      JoinedWordsAreMethod(parts);
      Parsed(rest, Join(parts, "/"))
  }

  /** `http_path`: never fails; the longest prefix without space, tab or LF. */
  function HttpPath(input: string): (r: IResult<string>)
    ensures r.Parsed? && r.value + r.rest == input && IsPath(r.value)
    ensures r.rest == [] || r.rest[0] in PathExcluded
  {
    match Many0NoneOf(PathExcluded, input)
    case Parsed(rest, path) => Parsed(rest, path)
  }

  /** `http_version`: the literal `HTTP/1.1`, returned unchanged. */
  function HttpVersion(input: string): (r: IResult<string>)
    ensures r.Parsed? <==> IsPrefix(Http11, input)
    ensures r.Parsed? ==> r.value == Http11 && Http11 + r.rest == input
  {
    Tag(Http11, input)
  }

  /** The request-line that a request was parsed from. */
  function RequestLine(req: Types.HttpRequest): string {
    req.verb + " " + req.path + " " + req.version + CRLF
  }

  lemma RequestLineConcat(req: Types.HttpRequest, rest: string)
    ensures RequestLine(req) + rest
            == req.verb + (" " + (req.path + (" " + (req.version + (CRLF + rest)))))
  {
  }

  /** What the parser can return: a method, a path, the version literal, and
      no headers (the header section is not parsed). */
  predicate WellFormed(req: Types.HttpRequest) {
    IsMethod(req.verb) && IsPath(req.path) && req.version == Http11 && req.headers == []
  }

  /** `http_request`: method, one space, path, one space, version, CRLF. On
      success the input is the request-line of the output followed by the
      rest. */
  function HttpRequest(input: string): (r: IResult<Types.HttpRequest>)
    ensures r.Parsed? ==> WellFormed(r.value) && RequestLine(r.value) + r.rest == input
  {
    match HttpMethod(input)
    case Fail => Fail
    case Parsed(i1, verb) =>
      match CharP(' ', i1)
      case Fail => Fail
      case Parsed(i2, _) =>
        match HttpPath(i2)
        case Fail => Fail
        case Parsed(i3, path) =>
          match CharP(' ', i3)
          case Fail => Fail
          case Parsed(i4, _) =>
            match HttpVersion(i4)
            case Fail => Fail
            case Parsed(i5, version) =>
              match Crlf(i5)
              case Fail => Fail
              case Parsed(i6, _) =>
                var req := Types.HttpRequest(verb, path, version, []);
                RequestLineConcat(req, i6);
                Parsed(i6, req)
  }

  /** `parse_request`: the request of `http_request` without the leftover
      input, or an error and no request. */
  function ParseRequest(input: string): (r: Result<Types.HttpRequest>)
    ensures r.Success? <==> HttpRequest(input).Parsed?
    ensures r.Success? ==> WellFormed(r.value) && IsPrefix(RequestLine(r.value), input)
    ensures r.Failure? ==> r.error == "Invalid HTTP request"
  {
    match HttpRequest(input)
    case Parsed(rest, req) =>
      assert input[..|RequestLine(req)|] == RequestLine(req);
      Success(req)
    case Fail => Failure("Invalid HTTP request")
  }

  // ---------------------------------------------------------------------
  // Properties

  /** A method followed by something that cannot extend it parses to itself. */
  lemma MethodRoundTrip(m: string, rest: string)
    requires IsMethod(m) && EndsMethod(rest)
    ensures HttpMethod(m + rest) == Parsed(rest, m)
  {
    var r := HttpMethod(m + rest);
    assert (m + rest)[0] == m[0];
    MethodSplitUnique(r.value, r.rest, m, rest);
  }

  /** A trailing or doubled `/` after a method is left unconsumed, and then the
      space that must follow the method is missing, so the request fails. */
  lemma MethodStraySlash(m: string, t: string)
    requires IsMethod(m) && !StartsWithAlpha(t)
    ensures HttpMethod(m + "/" + t) == Parsed("/" + t, m)
    ensures HttpRequest(m + "/" + t).Fail?
  {
    assert m + "/" + t == m + ("/" + t);
    assert ("/" + t)[1..] == t;
    MethodRoundTrip(m, "/" + t);
  }

  /** A path followed by space, tab, LF or nothing parses to itself. */
  lemma PathRoundTrip(p: string, rest: string)
    requires IsPath(p) && (rest == [] || rest[0] in PathExcluded)
    ensures HttpPath(p + rest) == Parsed(rest, p)
  {
    var r := HttpPath(p + rest);
    PathSplitUnique(r.value, r.rest, p, rest);
  }

  /** The version is exactly `HTTP/1.1`; anything else at that point fails. */
  lemma VersionExact(t: string)
    ensures HttpVersion(Http11 + t) == Parsed(t, Http11)
    ensures HttpVersion("HTTP/1.0" + t).Fail?
    ensures HttpVersion("http/1.1" + t).Fail?
  {
  }

  /** Round trip: a well-formed request-line followed by anything parses back
      to its request and leaves exactly what followed. */
  lemma RequestRoundTrip(req: Types.HttpRequest, rest: string)
    requires WellFormed(req)
    ensures HttpRequest(RequestLine(req) + rest) == Parsed(rest, req)
  {
    var afterVersion := CRLF + rest;
    var afterPath := " " + (Http11 + afterVersion);
    var afterMethod := " " + (req.path + afterPath);
    RequestLineConcat(req, rest);
    MethodRoundTrip(req.verb, afterMethod);
    assert afterMethod[1..] == req.path + afterPath;
    assert CharP(' ', afterMethod) == Parsed(req.path + afterPath, ' ');
    PathRoundTrip(req.path, afterPath);
    assert afterPath[1..] == Http11 + afterVersion;
    assert CharP(' ', afterPath) == Parsed(Http11 + afterVersion, ' ');
    VersionExact(afterVersion);
    assert afterVersion[..2] == CRLF && afterVersion[2..] == rest;
    assert Crlf(afterVersion) == Parsed(rest, CRLF);
  }

  /** A lone request-line parses to its method and path, leaving nothing. */
  lemma SingleRequestLine(verb: string, path: string)
    requires IsMethod(verb) && IsPath(path)
    ensures HttpRequest(verb + " " + path + " HTTP/1.1\r\n") == Parsed("", Types.HttpRequest(verb, path, Http11, []))
  {
    var req := Types.HttpRequest(verb, path, Http11, []);
    assert verb + " " + path + " HTTP/1.1\r\n" == RequestLine(req) + "";
    RequestRoundTrip(req, "");
  }

  /** `parse_request` on a well-formed request-line followed by anything
      returns that line's request. */
  lemma ParseRequestRoundTrip(req: Types.HttpRequest, rest: string)
    requires WellFormed(req)
    ensures ParseRequest(RequestLine(req) + rest) == Success(req)
  {
    RequestRoundTrip(req, rest);
  }

  ghost predicate StartsWithRequestLine(input: string) {
    exists req :: WellFormed(req) && IsPrefix(RequestLine(req), input)
  }

  /** `parse_request` succeeds exactly on inputs that start with a well-formed
      request-line. */
  lemma ParseRequestSucceedsIff(input: string)
    ensures ParseRequest(input).Success? <==> StartsWithRequestLine(input)
  {
    if StartsWithRequestLine(input) {
      var req :| WellFormed(req) && IsPrefix(RequestLine(req), input);
      var rest := input[|RequestLine(req)|..];
      assert input == RequestLine(req) + rest;
      ParseRequestRoundTrip(req, rest);
    }
  }

  /** Anything other than one space after the method fails. */
  lemma NoSpaceAfterMethodFails(m: string, t: string)
    requires IsMethod(m) && EndsMethod(t) && !(|t| > 0 && t[0] == ' ')
    ensures HttpRequest(m + t).Fail?
  {
    MethodRoundTrip(m, t);
  }

  /** A path ended by tab, LF or the end of input, instead of a space, fails. */
  lemma NoSpaceAfterPathFails(m: string, p: string, t: string)
    requires IsMethod(m) && IsPath(p) && (t == [] || t[0] == '\t' || t[0] == '\n')
    ensures HttpRequest(m + " " + p + t).Fail?
  {
    var afterMethod := " " + (p + t);
    assert m + " " + p + t == m + afterMethod;
    MethodRoundTrip(m, afterMethod);
    assert afterMethod[1..] == p + t;
    assert CharP(' ', afterMethod) == Parsed(p + t, ' ');
    PathRoundTrip(p, t);
    assert CharP(' ', t).Fail?;
  }

  /** A version other than `HTTP/1.1` after the second space fails. */
  lemma WrongVersionFails(m: string, p: string, t: string)
    requires IsMethod(m) && IsPath(p) && !IsPrefix(Http11, t)
    ensures HttpRequest(m + " " + p + " " + t).Fail?
  {
    var afterPath := " " + t;
    var afterMethod := " " + (p + afterPath);
    assert m + " " + p + " " + t == m + afterMethod;
    MethodRoundTrip(m, afterMethod);
    assert afterMethod[1..] == p + afterPath;
    assert CharP(' ', afterMethod) == Parsed(p + afterPath, ' ');
    PathRoundTrip(p, afterPath);
    assert afterPath[1..] == t;
    assert CharP(' ', afterPath) == Parsed(t, ' ');
  }

  /** A request-line not ended by CRLF (a bare LF, say) fails. */
  lemma MissingCrlfFails(m: string, p: string, t: string)
    requires IsMethod(m) && IsPath(p) && !IsPrefix(CRLF, t)
    ensures HttpRequest(m + " " + p + " " + Http11 + t).Fail?
  {
    var afterPath := " " + (Http11 + t);
    var afterMethod := " " + (p + afterPath);
    assert m + " " + p + " " + Http11 + t == m + afterMethod;
    MethodRoundTrip(m, afterMethod);
    assert afterMethod[1..] == p + afterPath;
    assert CharP(' ', afterMethod) == Parsed(p + afterPath, ' ');
    PathRoundTrip(p, afterPath);
    assert afterPath[1..] == Http11 + t;
    assert CharP(' ', afterPath) == Parsed(Http11 + t, ' ');
    VersionExact(t);
  }

  /** The unit test of src/parse.rs. */
  lemma ParseSimpleRequest()
    ensures HttpRequest("GET /index.html HTTP/1.1\r\n")
            == Parsed("", Types.HttpRequest("GET", "/index.html", "HTTP/1.1", []))
  {
    assert "GET /index.html HTTP/1.1\r\n" == "GET" + " " + "/index.html" + " HTTP/1.1\r\n";
    SingleRequestLine("GET", "/index.html");
  }

  /** The path may be empty. */
  lemma EmptyPath()
    ensures HttpRequest("GET  HTTP/1.1\r\n") == Parsed("", Types.HttpRequest("GET", "", "HTTP/1.1", []))
  {
    assert "GET  HTTP/1.1\r\n" == "GET" + " " + "" + " HTTP/1.1\r\n";
    SingleRequestLine("GET", "");
  }

  /** The path need not start with `/`. */
  lemma RelativePath()
    ensures HttpRequest("GET index.html HTTP/1.1\r\n")
            == Parsed("", Types.HttpRequest("GET", "index.html", "HTTP/1.1", []))
  {
    assert "GET index.html HTTP/1.1\r\n" == "GET" + " " + "index.html" + " HTTP/1.1\r\n";
    SingleRequestLine("GET", "index.html");
  }

  /** A `/`-joined method is kept verbatim. */
  lemma SlashJoinedMethod()
    ensures HttpRequest("M/SEARCH / HTTP/1.1\r\n")
            == Parsed("", Types.HttpRequest("M/SEARCH", "/", "HTTP/1.1", []))
  {
    assert "M/SEARCH / HTTP/1.1\r\n" == "M/SEARCH" + " " + "/" + " HTTP/1.1\r\n";
    SingleRequestLine("M/SEARCH", "/");
  }
}
