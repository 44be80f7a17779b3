/**
 * Whole requests through the pipeline. A request the client sends ends
 * its request line with CRLF; since the line is cut at the line feed
 * alone, the version token keeps the carriage return (`HTTP/1.1\r`),
 * which the server never looks at.
 */
module Scenarios {
  import opened Wrappers
  import opened Utf8
  import opened Strings
  import opened RequestParser
  import opened PathResolver
  import opened ResponseBuilder
  import opened RequestLog
  import opened ConnectionHandler

  const Version := "HTTP/1.1\r"

  lemma TokensHaveNoDelimiters()
    ensures ' ' !in "GET" && '\n' !in "GET" && ' ' !in Version && '\n' !in Version
  {
  }

  /** The decoded text of a request for `path` with further header lines `rest`. */
  function RequestText(path: string, rest: string): string
  {
    "GET " + path + " " + Version + "\n" + rest
  }

  lemma ParseRequestText(path: string, rest: string)
    requires ' ' !in path && '\n' !in path
    ensures ParseRequestLine(RequestText(path, rest)) == Parsed(Request("GET", path, Version))
  {
    TokensHaveNoDelimiters();
    ParseFormattedLine("GET", path, Version, rest);
    assert RequestText(path, rest) == "GET" + " " + path + " " + Version + "\n" + rest;
  }

  /** A request for `/name` looks up `www/name`. */
  lemma NamedFileRequest(received: seq<byte>, decode: seq<byte> -> Option<string>, fs: FileSystem, name: string, rest: string)
    requires received != [] && decode(received) == Some(RequestText("/" + name, rest))
    requires name != [] && name[0] != '/' && ' ' !in name && '\n' !in name
    ensures var filepath := "www/" + name;
      Respond(received, decode, fs) ==
        if filepath !in fs then Sent(NotFoundResponse(), "/" + name, 404)
        else match fs[filepath]
          case Readable(data) => Sent(OkResponse(ContentType(filepath), data), "/" + name, 200)
          case Unreadable => NoResponse(UnreadableFile(filepath))
  {
    var path := "/" + name;
    ParseRequestText(path, rest);
    assert SubstituteRoot(path) == path;
    assert path[1..] == name;
    assert ResolvePath(path) == "www/" + name;
  }

  /** `GET /` with `www/index.html` present: 200, `text/html`, the file's bytes, logged as `/index.html`. */
  lemma IndexScenario(received: seq<byte>, decode: seq<byte> -> Option<string>, fs: FileSystem, data: seq<byte>, rest: string)
    requires received != [] && decode(received) == Some(RequestText("/", rest))
    requires "www/index.html" in fs && fs["www/index.html"] == Readable(data)
    ensures Respond(received, decode, fs) == Sent(OkResponse("text/html", data), "/index.html", 200)
  {
    ParseRequestText("/", rest);
    RootIsIndex();
    IndexIsHtml();
  }

  lemma IndexIsHtml()
    ensures ContentType("www/index.html") == "text/html"
  {
    var p := "www/index.html";
    assert p[|p| - 2] == 'm';
  }

  /** `GET /missing.xyz` with no such file: 404 with the fixed page. */
  lemma MissingScenario(received: seq<byte>, decode: seq<byte> -> Option<string>, fs: FileSystem, rest: string)
    requires received != [] && decode(received) == Some(RequestText("/missing.xyz", rest))
    requires "www/missing.xyz" !in fs
    ensures Respond(received, decode, fs) == Sent(NotFoundResponse(), "/missing.xyz", 404)
  {
    var name := "missing.xyz";
    assert "/" + name == "/missing.xyz";
    assert "www/" + name == "www/missing.xyz";
    NamedFileRequest(received, decode, fs, name, rest);
  }

  /** `GET /photo.png`, or any other `.png` file present under the web root: served as `image/png`. */
  lemma PngScenario(received: seq<byte>, decode: seq<byte> -> Option<string>, fs: FileSystem,
                    data: seq<byte>, name: string, rest: string)
    requires received != [] && decode(received) == Some(RequestText("/" + name, rest))
    requires name != [] && name[0] != '/' && ' ' !in name && '\n' !in name && EndsWith(name, ".png")
    requires "www/" + name in fs && fs["www/" + name] == Readable(data)
    ensures Respond(received, decode, fs) == Sent(OkResponse("image/png", data), "/" + name, 200)
  {
    PngType(name);
    NamedFileRequest(received, decode, fs, name, rest);
  }

  lemma PngType(name: string)
    requires EndsWith(name, ".png")
    ensures ContentType("www/" + name) == "image/png"
  {
    EndsWithAfterSeparator(WebRoot, name, ".png");
    assert WebRoot + "/" + name == "www/" + name;
  }

  /** `GET /photo.png` with the file present: served as `image/png`. */
  lemma PhotoScenario(received: seq<byte>, decode: seq<byte> -> Option<string>, fs: FileSystem, data: seq<byte>, rest: string)
    requires received != [] && decode(received) == Some(RequestText("/photo.png", rest))
    requires "www/photo.png" in fs && fs["www/photo.png"] == Readable(data)
    ensures Respond(received, decode, fs) == Sent(OkResponse("image/png", data), "/photo.png", 200)
  {
    var name := "photo.png";
    assert "/" + name == "/photo.png";
    assert "www/" + name == "www/photo.png";
    assert name[|name| - 4..] == ".png";
    PngScenario(received, decode, fs, data, name, rest);
  }

  /** A request line with no path: the unpacking fails, nothing is sent. */
  lemma NoPathScenario(received: seq<byte>, decode: seq<byte> -> Option<string>, fs: FileSystem, rest: string)
    requires received != [] && decode(received) == Some("GET\r\n" + rest)
    ensures Respond(received, decode, fs) == NoResponse(BadRequestLine(1))
  {
    FirstLineOf("GET\r", rest);
    assert "GET\r" + "\n" + rest == "GET\r\n" + rest;
    assert Count("GET\r", ' ') == 0;
  }

  /** A client that connects and sends nothing: no response, no log line, closed. */
  method EmptyConnectionScenario(client: Address, time: string, decode: seq<byte> -> Option<string>, fs: FileSystem)
      returns (outcome: Outcome, logged: Option<string>, sent: seq<byte>, open: bool)
    ensures outcome == NoResponse(EmptyRequest) && logged == None
    ensures sent == [] && !open
  {
    var conn := new Connection([]);
    outcome, logged := HandleClient(conn, client, time, decode, fs);
    sent, open := conn.sent, conn.open;
  }

  /** A malformed request over a connection: nothing sent, nothing logged, closed. */
  method NoPathConnectionScenario(received: seq<byte>, client: Address, time: string,
                                  decode: seq<byte> -> Option<string>, fs: FileSystem)
      returns (outcome: Outcome, logged: Option<string>, sent: seq<byte>, open: bool)
    requires 0 < |received| <= RecvSize
    requires decode(received) == Some("GET\r\n")
    ensures outcome == NoResponse(BadRequestLine(1)) && logged == None
    ensures sent == [] && !open
  {
    var conn := new Connection(received);
    outcome, logged := HandleClient(conn, client, time, decode, fs);
    assert received[..|received|] == received;
    assert "GET\r\n" + "" == "GET\r\n";
    NoPathScenario(received, decode, fs, "");
    sent, open := conn.sent, conn.open;
  }
}
