# rusTTP protocol layer in Dafny

A model of the HTTP/1.1 protocol layer of rusTTP, a small HTTP server written
in Rust. It has three parts:

- **The request-line parser** (`src/parse.rs`). It is built from `nom`
  combinators and recognises `method SP path SP "HTTP/1.1" CRLF`, the
  request-line of section 3 of RFC 9112. Module `Parse` models each combinator
  over `string`. A combinator either succeeds, giving the unconsumed input and
  its output (`Parsed(rest, value)`), or fails (`Fail`). The parser is lenient
  where the code is lenient:
  - the method is one or more ASCII-letter runs joined by single `/`;
  - the path is any run of characters other than space, tab and LF, so it may
    be empty and need not start with `/`;
  - the version is the exact literal `HTTP/1.1`.
- **The response value, its builder and its wire form** (`src/types.rs`).
  - Module `Types` holds the header, request, status code and response values.
  - `Render` is `Display for Response`: the status line, the header lines
    joined by CRLF, two CRLFs, then the content.
  - `AsBytes` is `as_bytes`. Module `Utf8` gives the UTF-8 encoding it relies on.
  - The builder is a value passed along by `NewBuilder`, `WithStatusCode`,
    `WithContent` and `Build`.
- **The route handlers** (`src/handlers.rs`). Module `Handlers` has the 200,
  404, echo and user-agent handlers. Each returns `Success(response)` and none
  reports an error. `RespondWith200` and `RespondWith404` take no argument, and
  `RespondWithPathContent` requires the path to start with `/echo/`.

Modules `Wrappers` (Option and an `anyhow::Result` stand-in whose failure
carries a message) and `Text` (`join`, `strip_prefix` and lemmas about them)
support the rest.

Some names the code uses are defined nowhere in `src/`. The model gives them
the following meaning:
- `src/types.rs` defines no `HttpRequest`, although `src/parse.rs:8,20` and
  `src/handlers.rs:1,14,21` use it. It is modelled with the fields
  `src/parse.rs:20-24` fills (`method`, written `verb` because `method` is a
  Dafny keyword; `path`; `version`) plus `headers`, a list of `HttpHeader`, for
  `get_header` to search. `src/parse.rs` parses no header section, so the
  parser always gives `[]`.
- `get_header`, called at `src/handlers.rs:24`, is defined nowhere in `src/`.
  It is modelled as a first-match lookup: the name must match exactly, case
  included, and an absent header gives `""`.
- `StatusCode::NotFound` is used at `src/handlers.rs:9`, but the enum at
  `src/types.rs:40-42` has only `Ok`, and so does the `match` at
  `src/types.rs:23-25`. It is added with reason phrase `404 Not Found`, as in
  section 15.5.5 of RFC 9110.
- The builder methods `status_code` and `content` are called at
  `src/handlers.rs:9,17,26-27` but defined nowhere in `src/`. Each is modelled
  as replacing one field: `WithContent` sets only the content and adds no
  `Content-Type` or `Content-Length` header.

What the code does, stated plainly:
- A path may be empty and need not start with `/`: `src/parse.rs:41-44` takes
  any run of characters without space, tab or LF, including an empty one.
- With no headers, the status line (which ends in CRLF) is followed by
  `\r\n\r\n` before the content (`src/types.rs:26-29`), so the message has
  one empty line more than the RFC 9112 shape. `RenderWithoutHeaders` states
  this and contrasts it with that shape. With one or more headers the two agree
  (`RenderWithHeadersIsRfc9112`).
- A path without the `/echo/` prefix makes `respond_with_path_content` panic in
  the `unwrap` at `src/handlers.rs:16`, so `RespondWithPathContent` requires
  that prefix.

## Model

| member | source | states |
|---|---|---|
| `Parse.CharP` | src/parse.rs:12 | `char(c)` succeeds exactly when the input starts with `c`; it then returns `c` and consumes just that character |
| `Parse.Tag` | src/parse.rs:47 | `tag(t)` succeeds exactly when `t` is a prefix of the input, case included; it then returns `t` and the remainder after it |
| `Parse.Crlf` | src/parse.rs:16 | `crlf` succeeds exactly on input beginning `\r\n` and consumes those two characters |
| `Parse.AlphaRun` | src/parse.rs:29 | the length of the longest prefix of ASCII letters: every character before it is a letter and the one at it (if any) is not |
| `Parse.Alpha1` | src/parse.rs:29 | `alpha1` succeeds exactly when the input starts with a letter; the output is a non-empty letter run, output + rest is the input, and the rest does not start with a letter (the run is maximal) |
| `Parse.Many0NoneOf` | src/parse.rs:42 | `many0(none_of(..))` never fails; output + rest is the input, no output character is excluded, and the rest is empty or starts with an excluded character (the longest such prefix) |
| `Parse.SlashAlphaTail` | src/parse.rs:29 | the repetition of `separated_list1` after the first element: the consumed text is `/word` repeated, every word is a letter run, and the loop stops before a `/` with no letter after it |
| `Parse.SlashSeparatedAlpha1` | src/parse.rs:29 | `separated_list1(char('/'), alpha1)` succeeds exactly when the input starts with a letter; it yields one or more letter runs whose `/`-join is the consumed prefix, and the rest cannot extend the list |
| `Parse.HttpMethod` | src/parse.rs:28-39 | `http_method` succeeds exactly when the input starts with a letter; the returned string is exactly the consumed prefix, is a well-formed method, and what follows cannot extend it |
| `Parse.HttpPath` | src/parse.rs:41-44 | `http_path` never fails; it returns the longest prefix without space, tab or LF, which may be empty and need not begin with `/` |
| `Parse.HttpVersion` | src/parse.rs:46-48 | `http_version` succeeds exactly when the input begins with `HTTP/1.1` and then returns that literal unchanged |
| `Parse.HttpRequest` | src/parse.rs:10-26 | on success the input is the request-line of the result (method, one space, path, one space, `HTTP/1.1`, CRLF) followed by the returned rest, and the result is well formed |
| `Parse.ParseRequest` | src/parse.rs:50-55 | `parse_request` succeeds exactly when `http_request` does, returns a well-formed request whose request-line prefixes the input, and on failure gives the error `Invalid HTTP request` and no request |
| `Parse.JoinedWordsAreMethod` | src/parse.rs:29-36 | letter runs joined by `/` form a method: letters and `/` only, starting and ending with a letter, no doubled `/` |
| `Parse.MethodSplitUnique` | src/parse.rs:28-39 | a method followed by text that cannot extend it splits in only one way, which is why the method parse is determined |
| `Parse.PathSplitUnique` | src/parse.rs:41-44 | a path followed by space, tab, LF or nothing splits in only one way |
| `Parse.MethodRoundTrip` | src/parse.rs:28-39 | any well-formed method followed by text that cannot extend it parses back to itself and leaves exactly that text |
| `Parse.MethodStraySlash` | src/parse.rs:28-39 | a trailing or doubled `/` after a method is left unconsumed, so the following `char(' ')` (line 12) fails and the whole request fails |
| `Parse.PathRoundTrip` | src/parse.rs:41-44 | any path followed by space, tab, LF or nothing parses back to itself |
| `Parse.VersionExact` | src/parse.rs:46-48 | `HTTP/1.1` parses to itself; `HTTP/1.0` and lower-case `http/1.1` fail |
| `Parse.RequestRoundTrip` | src/parse.rs:10-26 | a well-formed request-line followed by any text parses to exactly its method, path and version and leaves exactly that text |
| `Parse.SingleRequestLine` | src/parse.rs:10-26 | `m + " " + p + " HTTP/1.1\r\n"` parses to `{m, p, HTTP/1.1}` with no input left, for every method `m` and path `p` |
| `Parse.ParseRequestRoundTrip` | src/parse.rs:50-55 | `parse_request` on a well-formed request-line followed by anything returns that request and discards the rest |
| `Parse.ParseRequestSucceedsIff` | src/parse.rs:50-55 | `parse_request` succeeds if and only if the input starts with some well-formed request-line |
| `Parse.NoSpaceAfterMethodFails` | src/parse.rs:11-12 | if the method is followed by anything but a space (a tab, say), the request fails |
| `Parse.NoSpaceAfterPathFails` | src/parse.rs:13-14 | if the path is ended by a tab, an LF or the end of input rather than a space, the request fails |
| `Parse.WrongVersionFails` | src/parse.rs:15 | if the text after the second space does not begin `HTTP/1.1`, the request fails |
| `Parse.MissingCrlfFails` | src/parse.rs:16 | if the version is not followed by CRLF (for example by a bare LF), the request fails |
| `Parse.ParseSimpleRequest` | src/parse.rs:63-72 | `GET /index.html HTTP/1.1\r\n` parses to method `GET`, path `/index.html`, version `HTTP/1.1` with no input left |
| `Parse.EmptyPath` | src/parse.rs:41-44 | `GET  HTTP/1.1\r\n` (two spaces) parses with an empty path |
| `Parse.RelativePath` | src/parse.rs:41-44 | a path without a leading `/` is accepted verbatim |
| `Parse.SlashJoinedMethod` | src/parse.rs:28-39 | a `/`-joined method such as `M/SEARCH` is kept verbatim |
| `Text.StripPrefix` | src/handlers.rs:16 | `strip_prefix` gives a value exactly when the prefix is present, and prefix + value is the original string |
| `Text.Join` | src/types.rs:26 | `join(sep)` puts `sep` between neighbouring parts, so that for a non-empty list one more `sep` at the end gives every part followed by `sep` (the header block), which `RenderWithHeadersIsRfc9112` relies on |
| `Types.GetHeader` | src/handlers.rs:24 | `get_header`: the value of the first header with exactly that name, and `""` when no header has it |
| `Types.ReasonPhrase` | src/types.rs:23-25 | the status text is three digits, a space and a non-empty reason, and the digits are `200` exactly for `Ok` (`NotFound` gives `404 Not Found`) |
| `Types.Render` | src/types.rs:20-37 | `Display for Response` begins with the status line `HTTP/1.1 <reason>\r\n`, and ends with `\r\n\r\n` followed by the content, with nothing after it |
| `Types.AsBytes` | src/types.rs:15-17 | `as_bytes` gives bytes that a strict UTF-8 decoder reads back to exactly the rendered text |
| `Types.ReasonPhraseInjective` | src/types.rs:23-25 | distinct status codes have distinct reason phrases (`200 OK`, `404 Not Found`) |
| `Types.RenderWithHeadersIsRfc9112` | src/types.rs:26-34 | with at least one header, the rendering is the status line, every header line ended by CRLF, an empty line, then the content: the message shape of section 2.1 of RFC 9112 |
| `Types.RenderWithoutHeaders` | src/types.rs:26-29 | with no headers, the status line is followed by `\r\n\r\n` before the content, one extra empty line, so the rendering differs from the RFC 9112 shape |
| `Types.RenderOkWithoutHeaders` | src/types.rs:22-34 | a 200 response without headers renders as `HTTP/1.1 200 OK\r\n\r\n\r\n` followed by the content |
| `Types.RenderHeaderLine` | src/types.rs:26 | header line `i` appears unaltered after the status line and the earlier header lines, in vector order, and is followed by CRLF |
| `Types.AsBytesEndsWithContent` | src/types.rs:15-17 | the bytes of `as_bytes` end with the UTF-8 bytes of the content |
| `Types.NewBuilder` | src/types.rs:51-57 | `ResponseBuilder::new` has status `Ok`, no headers and empty content |
| `Types.WithStatusCode` | src/handlers.rs:8-10 | `status_code(s)` sets the status to `s` and leaves headers and content as they were |
| `Types.WithContent` | src/handlers.rs:17 | `content(c)` sets the content to `c` and leaves status and headers as they were |
| `Types.Build` | src/types.rs:59-65 | `build` carries status, headers and content over unchanged |
| `Types.SettersCommuteAndOverride` | src/handlers.rs:25-27 | setting the status and the content commute, and a later call of the same setter overrides an earlier one |
| `Utf8.EncodeChar` | src/types.rs:16 | a character encodes to one to four bytes, and to a single byte, its own code, exactly when it is ASCII |
| `Utf8.Encode` | src/types.rs:16 | a string encodes to at least one and at most four bytes per character |
| `Utf8.DecodeEncodeChar` | src/types.rs:16 | the decoder reads back exactly the character the encoder wrote, whatever bytes follow |
| `Utf8.DecodeEncode` | src/types.rs:16 | decoding the encoding of any string gives the string back |
| `Utf8.EncodeAppend` | src/types.rs:16 | the encoding of a concatenation is the concatenation of the encodings |
| `Utf8.EncodeAscii` | src/types.rs:16 | an ASCII string encodes to one byte per character, each the character's code |
| `Handlers.RespondWith200` | src/handlers.rs:3-5 | always succeeds with status `Ok`, no headers and an empty body |
| `Handlers.RespondWith404` | src/handlers.rs:7-11 | always succeeds with status `NotFound`, no headers and an empty body |
| `Handlers.RespondWithPathContent` | src/handlers.rs:13-18 | for a path starting `/echo/`, succeeds with status `Ok`, no headers, and a body that, with `/echo/` put back in front, is the path again |
| `Handlers.RespondWithUserAgent` | src/handlers.rs:20-29 | always succeeds with status `Ok`, no headers, and as body the request's `User-Agent` header as `get_header` finds it |
| `Handlers.EchoContentIsPathSuffix` | src/handlers.rs:16-17 | the echo body is the path with the `/echo/` prefix removed |
| `Handlers.UserAgentIsFirstMatch` | src/handlers.rs:24-27 | the user-agent body is the value of the first `User-Agent` header |
| `Handlers.UserAgentAbsent` | src/handlers.rs:24-27 | without a `User-Agent` header the user-agent body is empty |
| `Handlers.StatusHandlersOnTheWire` | src/handlers.rs:3-11 | the 200 and 404 handlers put exactly `HTTP/1.1 200 OK\r\n\r\n\r\n` and `HTTP/1.1 404 Not Found\r\n\r\n\r\n` on the wire |
| `Handlers.EchoEndToEnd` | src/handlers.rs:13-18 | `GET /echo/<word> HTTP/1.1\r\n` parses, and the echo handler answers with a 200 whose wire form is the header-less status line, its CRLFs and `word` |

## Left out

- `src/file.rs` (reading and writing files through `std::fs`): pure I/O with no logic of its own.
- `src/main.rs` (the TCP accept loop and `handle_client`, an empty stub): network plumbing.
- The `println!` at `src/handlers.rs:23`: logging, with no effect on the response.
- `nom`'s error values and `anyhow`'s error payloads: parsing reports only success or failure. The one error message, `Invalid HTTP request`, is kept.
- The header section, the body and `Content-Length`: `src/parse.rs` neither parses nor computes them. So `ParseRequest` always returns `headers == []`.
- Routing by path and method, the `Created` status and file handlers: `src/` has no routing code, and `src/main.rs` never calls the handlers.
- Concurrency and per-connection threads: none appear in the modelled code.
- `Handlers.RespondWithPathContent`: a path without the `/echo/` prefix makes `respond_with_path_content` panic in `unwrap` (`src/handlers.rs:16`), so the model requires the prefix and does not model the panic.
