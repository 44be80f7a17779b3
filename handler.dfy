/**
 * `handle_client`: one connection, one request. The bytes received are
 * decoded, the request line is parsed, the path is resolved under the web
 * root and the file is looked up; the server then sends a 200 or 404
 * response, logs it, and closes the connection whatever happened.
 *
 * The file system and the UTF-8 decoder are parameters: `fs` maps each
 * path that `os.path.isfile` accepts to whether reading it succeeds, and
 * `decode` gives `None` where `bytes.decode('utf-8')` would raise.
 */
module ConnectionHandler {
  import opened Wrappers
  import opened Utf8
  import opened Strings
  import opened RequestParser
  import opened PathResolver
  import opened ResponseBuilder
  import opened RequestLog

  /** The size passed to `conn.recv`. */
  const RecvSize := 8192

  /** A regular file: its contents, or the fact that opening it fails. */
  datatype FileState = Readable(data: seq<byte>) | Unreadable

  /** The regular files under the server's working directory, by path. */
  type FileSystem = map<string, FileState>

  /** Why a connection was closed without a response. */
  datatype Failure =
    | EmptyRequest                          // `if not request_data: return`
    | UndecodableRequest                    // `decode('utf-8')` raised
    | BadRequestLine(tokenCount: nat)       // unpacking the split raised
    | UnreadableFile(filepath: string)      // `open(filepath, 'rb')` raised

  /**
   * What a connection comes to: nothing sent, or a response sent together
   * with the path and the status code passed to `log_request`.
   */
  datatype Outcome =
    | NoResponse(reason: Failure)
    | Sent(response: Response, loggedPath: string, loggedStatus: nat)

  /** The file part of the pipeline, once the request line is parsed. */
  function Serve(req: Request, fs: FileSystem): (o: Outcome)
    ensures var path := SubstituteRoot(req.path);
      var filepath := WebRoot + "/" + LStrip(path, '/');
      && (o.NoResponse? <==> filepath in fs && fs[filepath].Unreadable?)
      && (o.NoResponse? ==> o.reason == UnreadableFile(filepath))
      && (o.Sent? ==> o.loggedPath == path && o.response.status == o.loggedStatus)
      && (o.Sent? && o.loggedStatus == 200 <==> filepath in fs && fs[filepath].Readable?)
      && (o.Sent? && o.loggedStatus == 404 <==> filepath !in fs)
      && (o.Sent? && o.loggedStatus == 200 ==> o.response == OkResponse(ContentType(filepath), fs[filepath].data))
      && (o.Sent? && o.loggedStatus == 404 ==> o.response == NotFoundResponse())
  {
    var path := SubstituteRoot(req.path);
    var filepath := ResolvePath(path);
    if filepath in fs then
      match fs[filepath]
      case Readable(data) => Sent(OkResponse(ContentType(filepath), data), path, 200)
      case Unreadable => NoResponse(UnreadableFile(filepath))
    else
      Sent(NotFoundResponse(), path, 404)
  }

  /** Everything between `recv` and `sendall`. */
  function Respond(received: seq<byte>, decode: seq<byte> -> Option<string>, fs: FileSystem): (o: Outcome)
    ensures received == [] ==> o == NoResponse(EmptyRequest)
    ensures received != [] && decode(received).None? ==> o == NoResponse(UndecodableRequest)
    ensures received != [] && decode(received).Some? ==>
      var line := FirstLine(decode(received).value);
      (o.NoResponse? && o.reason.BadRequestLine? <==> Count(line, ' ') != 2)
      && (o.NoResponse? && o.reason.BadRequestLine? ==> o.reason.tokenCount == Count(line, ' ') + 1)
    ensures received != [] && decode(received).Some? && Count(FirstLine(decode(received).value), ' ') == 2 ==>
      var path := SubstituteRoot(ParseRequestLine(decode(received).value).request.path);
      var filepath := ResolvePath(path);
      && (o.NoResponse? <==> filepath in fs && fs[filepath].Unreadable?)
      && (o.Sent? && o.loggedStatus == 200 <==> filepath in fs && fs[filepath].Readable?)
      && (o.Sent? && o.loggedStatus == 404 <==> filepath !in fs)
      && (o.Sent? ==> o.loggedPath == path && o.response.status == o.loggedStatus)
      && (o.Sent? && o.loggedStatus == 200 ==> o.response == OkResponse(ContentType(filepath), fs[filepath].data))
      && (o.Sent? && o.loggedStatus == 404 ==> o.response == NotFoundResponse())
  {
    if received == [] then NoResponse(EmptyRequest)
    else match decode(received)
      case None => NoResponse(UndecodableRequest)
      case Some(text) =>
        match ParseRequestLine(text)
        case Malformed(n) => NoResponse(BadRequestLine(n))
        case Parsed(req) => Serve(req, fs)
  }

  // One literal per lemma: checked together, the literals cost far more.
  lemma CssTypeOk() ensures IsLineText("text/css") {}
  lemma JsTypeOk() ensures IsLineText("application/javascript") {}
  lemma JpegTypeOk() ensures IsLineText("image/jpeg") {}
  lemma PngTypeOk() ensures IsLineText("image/png") {}
  lemma HtmlTypeOk() ensures IsLineText(DefaultType) {}

  /** Every content type the server picks can stand on a header line. */
  lemma ContentTypeIsLineText(filepath: string)
    ensures IsLineText(ContentType(filepath))
  {
    CssTypeOk();
    JsTypeOk();
    JpegTypeOk();
    PngTypeOk();
    HtmlTypeOk();
  }

  /**
   * A response the server sends reads back as itself; its status line
   * carries the status that is logged (200 with reason OK, or 404 with
   * reason Not Found); its Content-Length is the length of its body; and
   * the body is the file's contents or the fixed 404 page.
   */
  lemma SentResponseReadsBack(req: Request, fs: FileSystem)
    ensures var o := Serve(req, fs);
      o.Sent? ==>
        var filepath := ResolvePath(o.loggedPath);
        && ParseResponse(Serialize(o.response)) == Some(o.response)
        && o.response.status == o.loggedStatus
        && ContentLengthMatches(o.response)
        && (o.loggedStatus == 200 ==>
              o.response.reason == "OK" && o.response.body == fs[filepath].data
              && FieldValue(o.response.fields, "Content-Type") == Some(ContentType(filepath))
              && Serialize(o.response) == Encode(FramedHead("HTTP/1.1 200 OK\r\n", ContentType(filepath), |o.response.body|)) + o.response.body)
        && (o.loggedStatus == 404 ==>
              o.response.reason == "Not Found" && o.response.body == NotFoundBody()
              && FieldValue(o.response.fields, "Content-Type") == Some("text/html")
              && Serialize(o.response) == Encode(FramedHead("HTTP/1.1 404 Not Found\r\n", "text/html", 48)) + o.response.body)
  {
    var o := Serve(req, fs);
    var filepath := ResolvePath(SubstituteRoot(req.path));
    if o.Sent? && o.loggedStatus == 200 {
      ContentTypeIsLineText(filepath);
      OkReadsBack(ContentType(filepath), fs[filepath].data);
      OkFraming(ContentType(filepath), fs[filepath].data);
    } else if o.Sent? {
      NotFoundReadsBack();
      NotFoundFraming();
    }
  }

  /**
   * The log line of a sent response names the request path after the `/`
   * substitution and the status the response carries, and reads back as
   * such (the path came from a space-separated request line, so it has no
   * space).
   */
  lemma LoggedLineReadsBack(received: seq<byte>, decode: seq<byte> -> Option<string>, fs: FileSystem,
                            time: string, client: Address)
    requires ' ' !in client.host
    ensures var o := Respond(received, decode, fs);
      o.Sent? ==>
        && decode(received).Some?
        && ParseRequestLine(decode(received).value).Parsed?
        && o.loggedPath == SubstituteRoot(ParseRequestLine(decode(received).value).request.path)
        && ParseLogLine(LogLine(time, client, o.loggedPath, o.loggedStatus))
           == Some(Entry(time, client, o.loggedPath, o.response.status))
  {
    var o := Respond(received, decode, fs);
    if o.Sent? {
      var req := ParseRequestLine(decode(received).value).request;
      SubstitutedPathHasNoSpace(req.path);
      ParseLogLineOf(time, client, o.loggedPath, o.loggedStatus);
    }
  }

  /** Two outcomes that differ at most in the logged path. */
  predicate SameReply(a: Outcome, b: Outcome)
  {
    match (a, b)
    case (NoResponse(x), NoResponse(y)) => x == y
    case (Sent(r, _, s), Sent(r', _, s')) => r == r' && s == s'
    case _ => false
  }

  /** `/` is served exactly as `/index.html`, and logged as `/index.html`. */
  lemma RootServedAsIndex(verb: string, version: string, fs: FileSystem)
    ensures Serve(Request(verb, "/", version), fs) == Serve(Request(verb, IndexPath, version), fs)
    ensures Serve(Request(verb, "/", version), fs).Sent? ==>
      Serve(Request(verb, "/", version), fs).loggedPath == IndexPath
  {
  }

  /**
   * Any run of leading slashes reaches the same file as a single one, so
   * the reply is the same; only the logged path keeps the slashes.
   */
  lemma {:induction false} LeadingSlashesSameReply(verb: string, slashes: nat, name: string, version: string, fs: FileSystem)
    requires slashes >= 1 && name != ""
    ensures SameReply(Serve(Request(verb, seq(slashes, _ => '/') + name, version), fs),
                      Serve(Request(verb, "/" + name, version), fs))
  {
    var many := seq(slashes, _ => '/') + name;
    var one := "/" + name;
    assert |many| >= 2 && |one| >= 2;
    assert SubstituteRoot(many) == many && SubstituteRoot(one) == one;
    LeadingSlashesIgnored(slashes, name);
    LeadingSlashesIgnored(1, name);
    assert seq(1, _ => '/') == "/";
  }

  /** The method and the version are read but never used. */
  lemma VerbAndVersionIgnored(req: Request, verb: string, version: string, fs: FileSystem)
    ensures Serve(req, fs) == Serve(Request(verb, req.path, version), fs)
  {
  }

  /**
   * The client's side of the socket: the bytes it has sent that the server
   * has not read yet, the bytes the server has sent it, and whether the
   * server has closed the connection.
   */
  class Connection {
    var pending: seq<byte>
    var sent: seq<byte>
    var open: bool

    constructor (incoming: seq<byte>)
      ensures pending == incoming && sent == [] && open
    {
      pending := incoming;
      sent := [];
      open := true;
    }

    /** `conn.recv(size)`: takes up to `size` of the bytes waiting; none once the client sent nothing. */
    method Recv(size: nat) returns (data: seq<byte>)
      requires open
      modifies this
      ensures |data| == if size < |old(pending)| then size else |old(pending)|
      ensures data == old(pending)[..|data|]
      ensures pending == old(pending)[|data|..]
      ensures sent == old(sent) && open
    {
      var n := if size < |pending| then size else |pending|;
      data := pending[..n];
      pending := pending[n..];
    }

    /** `conn.sendall(data)`: every byte reaches the client, in order. */
    method SendAll(data: seq<byte>)
      requires open
      modifies this
      ensures sent == old(sent) + data
      ensures pending == old(pending) && open
    {
      sent := sent + data;
    }

    /** `conn.close()`. */
    method Close()
      modifies this
      ensures !open
      ensures pending == old(pending) && sent == old(sent)
    {
      open := false;
    }
  }

  /**
   * One run of `handle_client`: receive once, answer by `Respond`, log
   * then send a response if there is one, and close the connection on
   * every path. The log line is returned rather than appended to the log
   * file.
   */
  method HandleClient(conn: Connection, client: Address, time: string,
                      decode: seq<byte> -> Option<string>, fs: FileSystem)
      returns (outcome: Outcome, logged: Option<string>)
    requires conn.open
    modifies conn
    ensures !conn.open
    ensures var n := if RecvSize < |old(conn.pending)| then RecvSize else |old(conn.pending)|;
      outcome == Respond(old(conn.pending)[..n], decode, fs)
      && conn.pending == old(conn.pending)[n..]
    ensures outcome.Sent? ==> conn.sent == old(conn.sent) + Serialize(outcome.response)
    ensures outcome.NoResponse? ==> conn.sent == old(conn.sent)
    ensures logged.Some? <==> outcome.Sent?
    ensures outcome.Sent? ==> logged == Some(LogLine(time, client, outcome.loggedPath, outcome.loggedStatus))
  {
    var requestData := conn.Recv(RecvSize);
    outcome := Respond(requestData, decode, fs);
    logged := None;
    if outcome.Sent? {
      logged := Some(LogLine(time, client, outcome.loggedPath, outcome.loggedStatus));
      conn.SendAll(Serialize(outcome.response));
    }
    conn.Close();
  }
}
