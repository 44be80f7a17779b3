# Simple static-file HTTP server: the per-request pipeline

`server.py` is a small threaded HTTP server. It serves the files under
the web root `www` and appends one line per answered request to
`server.log`. This project models what `handle_client` does with one
connection, and the line `log_request` writes for it, and proves
properties of that model in Dafny.

The pipeline has these steps:

- Receive up to 8192 bytes. If nothing arrived, close and stop.
- Decode the bytes as UTF-8.
- Take the text before the first line feed and split it at single spaces.
  It must give exactly three tokens: method, path and version.
- Replace the path `/` by `/index.html`.
- Strip every leading `/` from the path and join the rest under `www`.
- If that path is a regular file, read it and pick a content type from
  its suffix. Otherwise prepare the fixed 404 page.
- Frame a `HTTP/1.1` response. It has four headers in a fixed order
  (Content-Type, Content-Length, Server, Connection), then a blank line,
  then the body.
- Log the path and the status code, send the response, and close the
  connection on every path out of the `try` block.

The modules follow these steps:

- `RequestParser` (request.dfy) models the request line.
- `PathResolver` (resolve.dfy) models the `/` substitution, the join and
  the content-type chain.
- `ResponseBuilder` (response.dfy) models response framing. It also has
  a reader for the framed bytes (`ParseResponse`), which is the partner
  of `Serialize`: every response the server builds reads back as itself.
- `RequestLog` (log.dfy) models the log line. It has a reader too
  (`ParseLogLine`).
- `ConnectionHandler` (handler.dfy) models the whole pipeline. `Respond`
  and `Serve` are functions. The socket is the `Connection` class.
  `HandleClient` is the method that receives, logs, sends and closes.
- `Scenarios` (scenarios.dfy) proves the outcome of whole requests.

The helper modules are `Strings` (Python's `split`, `join`, `lstrip`,
`endswith`), `Decimal` (`str(n)` for naturals and reading it back),
`Utf8` (`str.encode('utf-8')`) and `Wrappers` (`Option`).

Two parts of the environment are parameters of the model:

- The file system is a map `fs` from each path that `os.path.isfile`
  accepts to the file's contents, or to `Unreadable` when `open` fails.
- The UTF-8 decoder is a function `decode` that returns `None` where
  `bytes.decode` would raise.

Three points about the code that are easy to get wrong:

- `lstrip('/')` removes every leading `/`, not only the first
  (`LeadingSlashesIgnored`).
- The tuple unpacking needs exactly three tokens, so a first line with
  more than three is rejected just like one with fewer (`ParseRequestLine`).
- `log_request` runs before `conn.sendall`, and only for 200 and 404
  answers. A connection that fails before `log_request` is reached is
  never logged. A `sendall` that fails comes after the line is written
  (`HandleClient`).

Two consequences of the code are worth knowing:

- A browser ends the request line with CRLF, but the line is cut at LF
  alone. The version token therefore keeps the carriage return
  (`HTTP/1.1\r`). The server never reads the version, so nothing changes.
- The response is built by `'\r\n'.join` over a header list whose last
  element is `'\r\n'`. That is why the header block ends with exactly one
  blank line (`JoinWithTerminator`, `ServerFraming`).

## Model

| member | source | states |
|---|---|---|
| RequestParser.FirstLine | server.py:41 | the first line has no line feed, is a prefix of the request, and is either all of it or followed by a line feed |
| RequestParser.FirstLineOf | server.py:41 | a line followed by a line feed and anything else has that line as its first line |
| RequestParser.ParseRequestLine | server.py:41-42 | parsing succeeds exactly when the first line has two spaces; the request's three tokens, joined by single spaces, give back the line and contain no space; on failure the token count is the number of spaces plus one, never 3 |
| RequestParser.ParseFormattedLine | server.py:41-42 | a line `m p v`, alone or followed by further lines, parses to exactly those three tokens |
| PathResolver.SubstituteRoot | server.py:45-46 | `/` becomes `/index.html`, every other path is kept; pinned down by RootIsIndex, SlashesNotSubstituted and SubstitutedPathHasNoSpace |
| PathResolver.PathJoin | server.py:51 | `os.path.join` of two components under POSIX rules; its use under the web root is characterised by ResolvePath |
| Strings.Join | server.py:79 | `sep.join(parts)`; its inverse is Split (Split's contract and SplitJoin), and JoinWithTerminator gives the header-block shape |
| Strings.EndsWith | server.py:61-68 | `str.endswith`; used by ContentType's contract, with NextToLast and EndsWithAfterSeparator relating suffixes |
| Utf8.Encode | server.py:79 | `str.encode('utf-8')`, one character at a time (EncodeChar); EncodeConcat, EncodeAscii and AsciiRoundTrip state its properties |
| ResponseBuilder.ServerFields | server.py:72-76 | the four headers in order; ServerFraming gives their exact text, ServerFieldsOk their well-formedness and ServerContentLength their values |
| ResponseBuilder.OkResponse | server.py:71-79 | status 200, reason OK, the server's headers and the file's bytes; OkFraming gives its exact bytes and OkReadsBack what a client reads back |
| ResponseBuilder.NotFoundResponse | server.py:84-93 | status 404, reason Not Found, text/html and the fixed body; NotFoundFraming gives its exact bytes and NotFoundReadsBack what a client reads back |
| ResponseBuilder.Serialize | server.py:79 | encoded status line, encoded header block, then the body; SerializeIsHeadAndBody and ServerFraming fix the bytes, and ParseSerialize proves ParseResponse its inverse |
| RequestLog.LogLine | server.py:17 | the f-string `[now] host:port - запросил 'path' - статус code` and a newline; ParseLogLineOf proves ParseLogLine its inverse |
| Strings.Split | server.py:41-42 | `str.split(c)`: one more part than there are `c`, no part contains `c`, and joining the parts with `c` gives back the string |
| Strings.SplitJoin | server.py:42 | splitting a join of parts that do not contain the separator gives back those parts |
| Strings.JoinWithTerminator | server.py:72-79 | joining lines with a last element equal to the separator terminates every line and adds one more separator |
| Strings.LStrip | server.py:51 | `lstrip(c)` leaves a suffix of the string, removes only `c` characters, and leaves nothing that starts with `c` |
| PathResolver.ResolvePath | server.py:51 | the file path is always `www/` followed by the request path with all leading `/` removed: the join never drops the web root |
| PathResolver.LeadingSlashesIgnored | server.py:51 | any number of leading slashes resolves to the same file |
| PathResolver.RootIsIndex | server.py:45-51 | both `/` and `/index.html` resolve to `www/index.html` |
| PathResolver.SlashesNotSubstituted | server.py:45-51 | only the exact path `/` is substituted; two or more slashes resolve to the web root directory `www/` |
| PathResolver.SubstitutedPathHasNoSpace | server.py:45-46 | the substitution introduces no space |
| PathResolver.NoTraversalDefence | server.py:51 | `..` segments are passed through, so `/../x` resolves to `www/../x` |
| PathResolver.ContentType | server.py:60-68 | `.css` gives text/css, `.js` application/javascript, `.jpg` or `.jpeg` image/jpeg, `.png` image/png, any other path text/html |
| PathResolver.ContentTypeOfRequestPath | server.py:51-68 | testing the joined path gives the same type as testing the request path without its leading slashes |
| PathResolver.UpperCaseSuffixIsHtml | server.py:60-68 | the suffix tests are case-sensitive: any path ending in `.CSS`, `.JS`, `.JPG`, `.JPEG` or `.PNG` is served as text/html |
| Decimal.NatToString | server.py:74 | the decimal text is a non-empty run of digits with no leading zero |
| Decimal.ParseNatToString | server.py:74 | reading back the decimal text of `n` gives `n` |
| Utf8.EncodeChar | server.py:79 | a character below 0x80 encodes to its own single byte; any other character encodes to 2 to 4 bytes, all at or above 0x80 |
| Utf8.EncodeConcat | server.py:79 | encoding a concatenation is the concatenation of the encodings |
| Utf8.EncodeAscii | server.py:79 | ASCII text encodes byte for byte |
| Utf8.AsciiRoundTrip | server.py:79 | ASCII text read back from its encoding gives the same text |
| Utf8.EncodeAvoidsAsciiByte | server.py:79 | the encoding of text without a given ASCII character has no byte with that character's value |
| ResponseBuilder.SerializeIsHeadAndBody | server.py:79 | the response bytes are the encoded status line and header block, then the body with nothing between |
| ResponseBuilder.ServerFraming | server.py:72-78 | the header block has, in order, `Content-Type: T`, `Content-Length: N` with N the decimal text of the length, `Server: MySimpleServer` and `Connection: close`, each ending in CRLF, then a blank line |
| ResponseBuilder.OkFraming | server.py:71-79 | the bytes of a 200 response are exactly the encoding of `HTTP/1.1 200 OK\r\nContent-Type: T\r\nContent-Length: N\r\nServer: MySimpleServer\r\nConnection: close\r\n\r\n` and then the file's bytes |
| ResponseBuilder.NotFoundBody | server.py:85 | the 404 body is the UTF-8 encoding of `<html><body><h1>404 Not Found</h1></body></html>`, 48 bytes |
| ResponseBuilder.NotFoundFraming | server.py:84-93 | the bytes of the 404 response are exactly the encoding of the status line `HTTP/1.1 404 Not Found`, type text/html, Content-Length 48 and the same other headers and blank line, then the fixed body |
| ResponseBuilder.FindCrlf | server.py:79 | the reader finds the first CRLF, with none earlier; or it reports that there is no CRLF at all |
| ResponseBuilder.ReadTerminated | server.py:79 | a block of CRLF-terminated lines and a blank line reads back as those lines, and the bytes after the blank line are left as the body |
| ResponseBuilder.ParseStatusLineOf | server.py:71 | a status line reads back as its code and reason |
| ResponseBuilder.ParseFieldLineOf | server.py:72-76 | a header line whose name has no colon reads back as that name and value |
| ResponseBuilder.ParseFieldsOf | server.py:72-76 | a list of header lines reads back as the same list of headers |
| ResponseBuilder.ParseSerialize | server.py:79 | every response whose reason and headers are ASCII with no carriage return, with no colon in a header name, reads back from its bytes as itself |
| ResponseBuilder.ServerFieldsOk | server.py:72-76 | the server's four headers meet those conditions for any ASCII with no carriage return type |
| ResponseBuilder.ServerContentLength | server.py:73-74 | the Content-Length header holds the decimal length, and the Content-Type header holds the type |
| ResponseBuilder.ServerResponseReadsBack | server.py:72-79 | a client reads back from the bytes the same status, reason, headers and body, and a Content-Length equal to the body's length |
| ResponseBuilder.OkReadsBack | server.py:71-79 | a client reads `200 OK`, the given type, the file's bytes and a matching Content-Length from a 200 response |
| ResponseBuilder.NotFoundReadsBack | server.py:84-93 | a client reads `404 Not Found`, text/html, the fixed body and a matching Content-Length from the 404 response |
| RequestLog.ParseLogLineOf | server.py:17 | the line `[time] host:port - запросил 'path' - статус code` followed by a line feed reads back as the time, address, path and status that were logged, when neither host nor path contains a space |
| ConnectionHandler.Serve | server.py:45-94 | no response exactly when `www/<stripped path>` is a file that cannot be read; 200 exactly when it is a readable file; 404 exactly when it is not a file; the 200 response is `OkResponse` with the path's content type and the file's bytes, the 404 response is `NotFoundResponse()`; the logged path is the path after the `/` substitution, and the logged status is the response's status |
| ConnectionHandler.Respond | server.py:31-94 | empty input gives no response; input that does not decode gives no response; a decoded request gets a bad-request-line failure exactly when its first line does not have two spaces, with the token count recorded; for a well-formed line, with F the resolved file path, there is no response exactly when F is a file that cannot be read, a 200 exactly when F is a readable file and a 404 exactly when F is not a file, the response sent is `OkResponse(ContentType(F), data)` or `NotFoundResponse()`, logged with the substituted path and the response's status |
| ConnectionHandler.ContentTypeIsLineText | server.py:60-68 | every content type the server picks is ASCII with no carriage return |
| ConnectionHandler.SentResponseReadsBack | server.py:54-94 | every response sent reads back as itself: status equal to the logged status, reason OK with the file's bytes and its type, or reason Not Found with the fixed page as text/html, and a matching Content-Length either way; the bytes sent are exactly the literal four-header head (200 with the file's type and length, or 404 with text/html and 48) followed by the body |
| ConnectionHandler.LoggedLineReadsBack | server.py:80-94 | a response is sent only for a decoded, well-formed request line; its log line names the path after the `/` substitution and the status the response carries, and reads back as such |
| ConnectionHandler.RootServedAsIndex | server.py:45-46 | `/` is served and logged exactly as `/index.html` |
| ConnectionHandler.LeadingSlashesSameReply | server.py:51 | `//x` and `/x` get the same reply; only the logged path differs |
| ConnectionHandler.VerbAndVersionIgnored | server.py:42 | the method and the version do not change the outcome |
| ConnectionHandler.Connection.constructor | server.py:22 | a new connection is open, with the client's bytes waiting and nothing sent |
| ConnectionHandler.Connection.Recv | server.py:31 | `recv(size)` takes the first `min(size, waiting)` bytes that are waiting, and leaves the rest |
| ConnectionHandler.Connection.SendAll | server.py:97 | `sendall` appends every byte to what the client has received |
| ConnectionHandler.Connection.Close | server.py:103 | `close` closes the connection and changes nothing else |
| ConnectionHandler.HandleClient | server.py:22-104 | the connection is closed on every path; the outcome is `Respond` applied to the first 8192 bytes the client sent; a response is sent exactly when a log line is produced, and that line records its path and status; nothing is sent otherwise |
| Scenarios.IndexScenario | server.py:45-80 | `GET /` with `www/index.html` present gives 200, text/html and the file's bytes, logged as `/index.html` |
| Scenarios.MissingScenario | server.py:82-94 | `GET /missing.xyz` with no such file gives the fixed 404 response, logged with status 404 |
| Scenarios.PngScenario | server.py:60-68 | a request for any present `.png` file is answered 200 with type image/png |
| Scenarios.PhotoScenario | server.py:60-80 | `GET /photo.png` with the file present is answered 200 with type image/png |
| Scenarios.NoPathScenario | server.py:41-42 | a request line `GET` with no path has one token, so nothing is sent |
| Scenarios.EmptyConnectionScenario | server.py:31-34 | a client that sends nothing gets no response and no log line, and the connection is closed |
| Scenarios.NoPathConnectionScenario | server.py:99-103 | over a connection, a line with no path gets no response and no log line, and the connection is still closed |

## Left out

- `start_server` is left out: creating the socket, bind, listen, the accept loop and Ctrl+C are network I/O.
- The thread for each connection is left out. It is concurrency, and each handler runs on its own data.
- The real file system is left out. `os.path.isfile` and `open(...).read()` are the map `fs`, fixed during the request. The race between the check and the read is not modelled.
- The UTF-8 decoding algorithm is left out. `decode` is a parameter; `str.encode('utf-8')` is modelled in full.
- Appending to `server.log`, the console copy and the diagnostic prints are left out. `HandleClient` returns the log line instead.
- `datetime.now()` is left out. The formatted time is a parameter.
- `os.path.join` is modelled with POSIX rules only.
- ConnectionHandler.Connection.Recv: does not model a `recv` that returns fewer bytes than are waiting, because how TCP segments arrive is outside the program.
- ConnectionHandler.HandleClient: does not model `recv`, `sendall` or `close` raising. It also does not model the connection `print` at server.py:27 raising: it stands before the `try`, so the connection would then not be closed. It also does not model `log_request` failing to write, which would stop the response before it is sent.
- RequestLog.ParseLogLineOf: applies only to hosts without a space. The numeric IPv4 address that `accept` reports never has one.
