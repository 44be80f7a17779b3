/**
 * Response framing in `handle_client`: the status line, the header list
 * joined with CRLF (its last element is CRLF itself, which makes the
 * blank line), and the raw body, as in section 4 of RFC 9112. A reader
 * that takes such bytes apart again is the partner of the framing: every
 * response the server can build reads back to itself.
 */
module ResponseBuilder {
  import opened Wrappers
  import opened Utf8
  import opened Strings
  import opened Decimal

  const HttpVersion := "HTTP/1.1"
  const Crlf := "\r\n"
  const ServerName := "MySimpleServer"
  /** `<html><body><h1>404 Not Found</h1></body></html>`, in three pieces. */
  const NotFoundHtml := "<html><body>" + "<h1>404 Not Found</h1>" + "</body></html>"

  datatype Field = Field(name: string, value: string)
  datatype Response = Response(status: nat, reason: string, fields: seq<Field>, body: seq<byte>)

  function StatusLine(r: Response): string
  {
    HttpVersion + " " + NatToString(r.status) + " " + r.reason
  }

  /** The header string `f'{name}: {value}'`. */
  function FieldLine(f: Field): string
  {
    f.name + ": " + f.value
  }

  function FieldLines(fields: seq<Field>): (lines: seq<string>)
    ensures |lines| == |fields|
    ensures forall i | 0 <= i < |fields| :: lines[i] == FieldLine(fields[i])
  {
    seq(|fields|, i requires 0 <= i < |fields| => FieldLine(fields[i]))
  }

  /**
   * `status_line.encode('utf-8') + '\r\n'.join(headers).encode('utf-8') + body`,
   * where `headers` is the field lines followed by the element `'\r\n'`.
   */
  function Serialize(r: Response): seq<byte>
  {
    Encode(StatusLine(r) + Crlf) + Encode(Join(FieldLines(r.fields) + [Crlf], Crlf)) + r.body
  }

  /** The four headers of every response, in the order the server writes them. */
  function ServerFields(contentType: string, length: nat): seq<Field>
  {
    [ Field("Content-Type", contentType),
      Field("Content-Length", NatToString(length)),
      Field("Server", ServerName),
      Field("Connection", "close") ]
  }

  /** The 200 response for a file with the given type and contents. */
  function OkResponse(contentType: string, body: seq<byte>): Response
  {
    Response(200, "OK", ServerFields(contentType, |body|), body)
  }

  /** The fixed body `b"<html>...404 Not Found...</html>"`. */
  function NotFoundBody(): (b: seq<byte>)
    ensures |b| == 48
    ensures Latin1Decode(b) == NotFoundHtml
    ensures b == Encode(NotFoundHtml)
  {
    NotFoundHtmlIsAscii();
    AsciiBytesAreEncoding(NotFoundHtml);
    AsciiBytes(NotFoundHtml)
  }

  // One literal per lemma: checked together, the literals cost far more.
  lemma NotFoundHtmlIsAscii()
    ensures IsAscii(NotFoundHtml)
  {
    OpeningTagsAreAscii();
    HeadingIsAscii();
    ClosingTagsAreAscii();
    AsciiConcat("<html><body>", "<h1>404 Not Found</h1>");
    AsciiConcat("<html><body>" + "<h1>404 Not Found</h1>", "</body></html>");
  }

  lemma OpeningTagsAreAscii() ensures IsAscii("<html><body>") {}
  lemma HeadingIsAscii() ensures IsAscii("<h1>404 Not Found</h1>") {}
  lemma ClosingTagsAreAscii() ensures IsAscii("</body></html>") {}

  /** The 404 response: `text/html` and the fixed body. */
  function NotFoundResponse(): Response
  {
    Response(404, "Not Found", ServerFields("text/html", |NotFoundBody()|), NotFoundBody())
  }

  // ---------------------------------------------------------------------
  // Byte-exact framing of the two responses the server sends.

  /** The status line, the header block and the blank line, as text. */
  function Head(r: Response): string
  {
    StatusLine(r) + Crlf + Join(FieldLines(r.fields) + [Crlf], Crlf)
  }

  /** The two encoded pieces are the encoding of the whole head. */
  lemma SerializeIsHeadAndBody(r: Response)
    ensures Serialize(r) == Encode(Head(r)) + r.body
  {
    EncodeConcat(StatusLine(r) + Crlf, Join(FieldLines(r.fields) + [Crlf], Crlf));
  }

  lemma Regroup(a: string, p0: string, p1: string, p2: string, p3: string, z: string)
    ensures a + ((p0 + (p1 + (p2 + (p3 + "")))) + z) == a + p0 + p1 + p2 + p3 + z
  {
    assert p3 + "" == p3;
  }

  /**
   * The head the server writes: its status line (with CRLF), the four
   * headers in the order Content-Type, Content-Length, Server, Connection,
   * and a blank line.
   */
  function FramedHead(statusLine: string, contentType: string, length: nat): string
  {
    statusLine +
    ("Content-Type: " + contentType + "\r\n") +
    ("Content-Length: " + NatToString(length) + "\r\n") +
    "Server: MySimpleServer\r\n" +
    "Connection: close\r\n" +
    "\r\n"
  }

  // One literal per lemma: checked together, the literals cost far more.
  lemma ContentTypeLine(contentType: string)
    ensures FieldLine(Field("Content-Type", contentType)) + Crlf == "Content-Type: " + contentType + "\r\n"
  {
    assert "Content-Type" + ": " == "Content-Type: ";
  }

  lemma ContentLengthLine(digits: string)
    ensures FieldLine(Field("Content-Length", digits)) + Crlf == "Content-Length: " + digits + "\r\n"
  {
    assert "Content-Length" + ": " == "Content-Length: ";
  }

  lemma ServerLine()
    ensures FieldLine(Field("Server", ServerName)) + Crlf == "Server: MySimpleServer\r\n"
  {
  }

  lemma ConnectionLine()
    ensures FieldLine(Field("Connection", "close")) + Crlf == "Connection: close\r\n"
  {
  }

  lemma OkStatusLine(r: Response)
    requires r.status == 200 && r.reason == "OK"
    ensures StatusLine(r) + Crlf == "HTTP/1.1 200 OK\r\n"
  {
    assert NatToString(200) == "200";
  }

  lemma NotFoundStatusLine(r: Response)
    requires r.status == 404 && r.reason == "Not Found"
    ensures StatusLine(r) + Crlf == "HTTP/1.1 404 Not Found\r\n"
  {
    assert NatToString(404) == "404";
  }

  lemma ServerFraming(r: Response, contentType: string, length: nat)
    requires r.fields == ServerFields(contentType, length)
    ensures Head(r) == FramedHead(StatusLine(r) + Crlf, contentType, length)
  {
    var l := FieldLines(r.fields);
    JoinWithTerminator(l, Crlf);
    assert l[1..][1..][1..][1..] == [];
    var p0, p1, p2, p3 := l[0] + Crlf, l[1] + Crlf, l[2] + Crlf, l[3] + Crlf;
    assert Terminated(l[1..][1..][1..], Crlf) == p3 + "";
    assert Terminated(l[1..][1..], Crlf) == p2 + (p3 + "");
    assert Terminated(l[1..], Crlf) == p1 + (p2 + (p3 + ""));
    assert Terminated(l, Crlf) == p0 + (p1 + (p2 + (p3 + "")));
    Regroup(StatusLine(r) + Crlf, p0, p1, p2, p3, Crlf);
    ContentTypeLine(contentType);
    ContentLengthLine(NatToString(length));
    ServerLine();
    ConnectionLine();
  }

  /**
   * The 200 response is exactly the status line `HTTP/1.1 200 OK`, the
   * headers Content-Type, Content-Length (the decimal length of the body),
   * Server and Connection, a blank line and then the body: its bytes are
   * the encoded head followed by the body, by SerializeIsHeadAndBody.
   */
  lemma OkFraming(contentType: string, body: seq<byte>)
    ensures Head(OkResponse(contentType, body)) == FramedHead("HTTP/1.1 200 OK\r\n", contentType, |body|)
    ensures OkResponse(contentType, body).body == body
    ensures Serialize(OkResponse(contentType, body)) == Encode(FramedHead("HTTP/1.1 200 OK\r\n", contentType, |body|)) + body
  {
    var r := OkResponse(contentType, body);
    SerializeIsHeadAndBody(r);
    ServerFraming(r, contentType, |body|);
    OkStatusLine(r);
  }

  /**
   * The 404 response has the status line `HTTP/1.1 404 Not Found`, type
   * `text/html`, Content-Length 48 (the length of its fixed body) and the
   * same other headers.
   */
  lemma NotFoundFraming()
    ensures Head(NotFoundResponse()) == FramedHead("HTTP/1.1 404 Not Found\r\n", "text/html", 48)
    ensures NotFoundResponse().body == NotFoundBody()
    ensures Serialize(NotFoundResponse()) == Encode(FramedHead("HTTP/1.1 404 Not Found\r\n", "text/html", 48)) + NotFoundBody()
  {
    var r := NotFoundResponse();
    SerializeIsHeadAndBody(r);
    ServerFraming(r, "text/html", 48);
    NotFoundStatusLine(r);
  }

  // ---------------------------------------------------------------------
  // Reading a response back.

  /** The first CRLF in `b`. */
  function FindCrlf(b: seq<byte>): (r: Option<nat>)
    ensures r.Some? ==> r.value + 1 < |b| && b[r.value] == CR && b[r.value + 1] == LF
    ensures r.Some? ==> forall j | 0 <= j < r.value :: !(b[j] == CR && b[j + 1] == LF)
    ensures r.None? ==> forall j | 0 <= j < |b| - 1 :: !(b[j] == CR && b[j + 1] == LF)
  {
    if |b| < 2 then None
    else if b[0] == CR && b[1] == LF then Some(0)
    else match FindCrlf(b[1..])
      case None => None
      case Some(i) => Some(i + 1)
  }

  /** The CRLF-terminated lines before the first empty line, and what follows it. */
  function ReadHead(b: seq<byte>): Option<(seq<seq<byte>>, seq<byte>)>
    decreases |b|
  {
    match FindCrlf(b)
    case None => None
    case Some(i) =>
      if i == 0 then Some(([], b[2..]))
      else match ReadHead(b[i + 2..])
        case None => None
        case Some(p) => Some(([b[..i]] + p.0, p.1))
  }

  /** `HTTP/1.1 SP status-code SP reason-phrase`. */
  function ParseStatusLine(line: string): Option<(nat, string)>
  {
    match SplitFirst(line, ' ')
    case None => None
    case Some(p) =>
      if p.0 != HttpVersion then None
      else match SplitFirst(p.1, ' ')
        case None => None
        case Some(q) =>
          match ParseNat(q.0)
          case None => None
          case Some(code) => Some((code, q.1))
  }

  /** `name: value`, with the single space the server writes after the colon. */
  function ParseFieldLine(line: string): Option<Field>
  {
    match SplitFirst(line, ':')
    case None => None
    case Some(p) =>
      if |p.1| >= 1 && p.1[0] == ' ' then Some(Field(p.0, p.1[1..])) else None
  }

  function ParseFields(lines: seq<seq<byte>>): Option<seq<Field>>
  {
    if lines == [] then Some([])
    else match ParseFieldLine(Latin1Decode(lines[0]))
      case None => None
      case Some(f) =>
        match ParseFields(lines[1..])
        case None => None
        case Some(rest) => Some([f] + rest)
  }

  function ParseResponse(b: seq<byte>): Option<Response>
  {
    match ReadHead(b)
    case None => None
    case Some(head) =>
      var (lines, body) := head;
      if lines == [] then None
      else match ParseStatusLine(Latin1Decode(lines[0]))
        case None => None
        case Some(status) =>
          match ParseFields(lines[1..])
          case None => None
          case Some(fields) => Some(Response(status.0, status.1, fields, body))
  }

  /** The first value given for `name`. */
  function FieldValue(fields: seq<Field>, name: string): Option<string>
  {
    if fields == [] then None
    else if fields[0].name == name then Some(fields[0].value)
    else FieldValue(fields[1..], name)
  }

  /** The Content-Length field is there and is the decimal length of the body. */
  predicate ContentLengthMatches(r: Response)
  {
    match FieldValue(r.fields, "Content-Length")
    case None => false
    case Some(v) => ParseNat(v) == Some(|r.body|)
  }

  // ---------------------------------------------------------------------
  // The round trip.

  /** Text that can stand on one line of the header block. */
  predicate IsLineText(s: string)
  {
    IsAscii(s) && '\r' !in s
  }

  lemma LineTextConcat(a: string, b: string)
    requires IsLineText(a) && IsLineText(b)
    ensures IsLineText(a + b)
  {
    AsciiConcat(a, b);
  }

  predicate FieldOk(f: Field)
  {
    IsLineText(f.name) && IsLineText(f.value) && ':' !in f.name
  }

  /** What a response needs so that its framing is unambiguous. */
  predicate WellFormed(r: Response)
  {
    IsLineText(r.reason) && forall i | 0 <= i < |r.fields| :: FieldOk(r.fields[i])
  }

  function EncodeEach(lines: seq<string>): (r: seq<seq<byte>>)
    ensures |r| == |lines|
    ensures forall i | 0 <= i < |lines| :: r[i] == Encode(lines[i])
  {
    seq(|lines|, i requires 0 <= i < |lines| => Encode(lines[i]))
  }

  lemma {:induction false} FindCrlfAfter(a: seq<byte>, rest: seq<byte>)
    requires CR !in a
    ensures FindCrlf(a + [CR, LF] + rest) == Some(|a|)
  {
    var b := a + [CR, LF] + rest;
    if a != [] {
      assert b[1..] == a[1..] + [CR, LF] + rest;
      FindCrlfAfter(a[1..], rest);
    }
  }

  lemma ReadHeadBlank(rest: seq<byte>)
    ensures ReadHead([CR, LF] + rest) == Some(([], rest))
  {
    FindCrlfAfter([], rest);
    assert [] + [CR, LF] + rest == [CR, LF] + rest;
  }

  lemma ReadHeadLine(line: seq<byte>, rest: seq<byte>)
    requires |line| > 0 && CR !in line
    ensures ReadHead(line + [CR, LF] + rest) ==
      match ReadHead(rest)
      case None => None
      case Some(p) => Some(([line] + p.0, p.1))
  {
    var b := line + [CR, LF] + rest;
    FindCrlfAfter(line, rest);
    assert b[..|line|] == line;
    assert b[|line| + 2..] == rest;
  }

  lemma EncodeCrlf()
    ensures Encode(Crlf) == [CR, LF]
  {
  }

  lemma ConcatRegroup<T>(a: seq<T>, b: seq<T>, c: seq<T>, d: seq<T>)
    ensures a + (b + c) + d == a + b + (c + d)
  {
  }

  /** The encoded head, one terminated line at a time. */
  lemma TerminatedStep(lines: seq<string>, body: seq<byte>)
    requires lines != []
    ensures Encode(Terminated(lines, Crlf) + Crlf) + body ==
      Encode(lines[0]) + [CR, LF] + (Encode(Terminated(lines[1..], Crlf) + Crlf) + body)
  {
    var t := Terminated(lines[1..], Crlf) + Crlf;
    assert Terminated(lines, Crlf) + Crlf == lines[0] + (Crlf + t);
    EncodeConcat(lines[0], Crlf + t);
    EncodeConcat(Crlf, t);
    EncodeCrlf();
    ConcatRegroup(Encode(lines[0]), Encode(Crlf), Encode(t), body);
  }

  lemma EncodeEachCons(lines: seq<string>)
    requires lines != []
    ensures EncodeEach(lines) == [Encode(lines[0])] + EncodeEach(lines[1..])
  {
    forall i | 0 <= i < |lines| ensures ([Encode(lines[0])] + EncodeEach(lines[1..]))[i] == Encode(lines[i]) {
      if i > 0 { assert lines[1..][i - 1] == lines[i]; }
    }
  }

  lemma {:induction false} ReadTerminated(lines: seq<string>, body: seq<byte>)
    requires forall i | 0 <= i < |lines| :: |lines[i]| > 0 && IsLineText(lines[i])
    ensures ReadHead(Encode(Terminated(lines, Crlf) + Crlf) + body) == Some((EncodeEach(lines), body))
  {
    if lines == [] {
      EncodeCrlf();
      ReadHeadBlank(body);
    } else {
      var el := Encode(lines[0]);
      var x := Encode(Terminated(lines[1..], Crlf) + Crlf) + body;
      TerminatedStep(lines, body);
      EncodeAvoidsAsciiByte(lines[0], '\r');
      ReadHeadLine(el, x);
      ReadTerminated(lines[1..], body);
      EncodeEachCons(lines);
    }
  }

  lemma ParseStatusLineOf(code: nat, reason: string)
    ensures ParseStatusLine(HttpVersion + " " + NatToString(code) + " " + reason) == Some((code, reason))
  {
    var d := NatToString(code);
    DigitsHaveNoDelimiters(d);
    assert HttpVersion + " " + d + " " + reason == HttpVersion + [' '] + (d + " " + reason);
    SplitFirstAt(HttpVersion, d + " " + reason, ' ');
    assert d + " " + reason == d + [' '] + reason;
    SplitFirstAt(d, reason, ' ');
    ParseNatToString(code);
  }

  lemma ParseFieldLineOf(f: Field)
    requires FieldOk(f)
    ensures ParseFieldLine(FieldLine(f)) == Some(f)
  {
    assert FieldLine(f) == f.name + [':'] + (" " + f.value);
    SplitFirstAt(f.name, " " + f.value, ':');
    assert (" " + f.value)[1..] == f.value;
  }

  lemma {:induction false} ParseFieldsOf(fields: seq<Field>)
    requires forall i | 0 <= i < |fields| :: FieldOk(fields[i])
    ensures ParseFields(EncodeEach(FieldLines(fields))) == Some(fields)
  {
    var lines := EncodeEach(FieldLines(fields));
    if fields != [] {
      var f := fields[0];
      assert FieldOk(f);
      LineTextConcat(f.name, ": ");
      LineTextConcat(f.name + ": ", f.value);
      AsciiRoundTrip(FieldLine(f));
      assert Latin1Decode(lines[0]) == FieldLine(f);
      ParseFieldLineOf(f);
      assert lines[1..] == EncodeEach(FieldLines(fields[1..]));
      ParseFieldsOf(fields[1..]);
      assert [f] + fields[1..] == fields;
    }
  }

  /** The lines of the head: the status line, then one line per field. */
  function HeadLines(r: Response): seq<string>
  {
    [StatusLine(r)] + FieldLines(r.fields)
  }

  lemma SerializeAsLines(r: Response)
    ensures Serialize(r) == Encode(Terminated(HeadLines(r), Crlf) + Crlf) + r.body
  {
    var status := StatusLine(r);
    var fl := FieldLines(r.fields);
    var lines := HeadLines(r);
    JoinWithTerminator(fl, Crlf);
    assert lines[1..] == fl;
    assert Terminated(lines, Crlf) + Crlf == (status + Crlf) + Join(fl + [Crlf], Crlf);
    EncodeConcat(status + Crlf, Join(fl + [Crlf], Crlf));
  }

  lemma HeadLinesAreText(r: Response)
    requires WellFormed(r)
    ensures forall i | 0 <= i < |HeadLines(r)| :: |HeadLines(r)[i]| > 0 && IsLineText(HeadLines(r)[i])
  {
    var lines := HeadLines(r);
    var d := NatToString(r.status);
    DigitsHaveNoDelimiters(d);
    LineTextConcat(HttpVersion + " ", d);
    LineTextConcat(HttpVersion + " " + d, " ");
    LineTextConcat(HttpVersion + " " + d + " ", r.reason);
    forall i | 0 <= i < |lines| ensures |lines[i]| > 0 && IsLineText(lines[i]) {
      if i > 0 {
        var f := r.fields[i - 1];
        assert FieldOk(f);
        assert lines[i] == FieldLine(f);
        LineTextConcat(f.name, ": ");
        LineTextConcat(f.name + ": ", f.value);
      }
    }
  }

  /** Every well-formed response reads back to itself. */
  lemma {:induction false} ParseSerialize(r: Response)
    requires WellFormed(r)
    ensures ParseResponse(Serialize(r)) == Some(r)
  {
    var lines := HeadLines(r);
    SerializeAsLines(r);
    HeadLinesAreText(r);
    ReadTerminated(lines, r.body);
    var enc := EncodeEach(lines);
    assert ReadHead(Serialize(r)) == Some((enc, r.body));
    AsciiRoundTrip(lines[0]);
    assert Latin1Decode(enc[0]) == StatusLine(r);
    ParseStatusLineOf(r.status, r.reason);
    assert enc[1..] == EncodeEach(FieldLines(r.fields));
    ParseFieldsOf(r.fields);
  }

  /** The server's own headers can stand in a header block. */
  lemma ServerFieldsOk(contentType: string, length: nat)
    requires IsLineText(contentType)
    ensures forall i | 0 <= i < 4 :: FieldOk(ServerFields(contentType, length)[i])
  {
    DigitsHaveNoDelimiters(NatToString(length));
    ContentTypeNameOk();
    ContentLengthNameOk();
    ServerNameOk();
    ConnectionNameOk();
  }

  // One literal per lemma: checked together, the literals cost far more.
  lemma ContentTypeNameOk() ensures IsLineText("Content-Type") && ':' !in "Content-Type" {}
  lemma ContentLengthNameOk() ensures IsLineText("Content-Length") && ':' !in "Content-Length" {}
  lemma ServerNameOk() ensures IsLineText("Server") && ':' !in "Server" && IsLineText(ServerName) {}
  lemma ConnectionNameOk() ensures IsLineText("Connection") && ':' !in "Connection" && IsLineText("close") {}

  /** The server's Content-Length header is the second one, and holds `length`. */
  lemma ServerContentLength(contentType: string, length: nat)
    ensures FieldValue(ServerFields(contentType, length), "Content-Length") == Some(NatToString(length))
    ensures FieldValue(ServerFields(contentType, length), "Content-Type") == Some(contentType)
  {
    var fields := ServerFields(contentType, length);
    assert |fields[0].name| != |"Content-Length"|;
    assert fields[1..][0] == Field("Content-Length", NatToString(length));
  }

  /**
   * What a client reads from any response the server frames: the same
   * status, reason, headers (Content-Type first, then Content-Length,
   * Server, Connection) and body, and a Content-Length equal to the
   * body's length.
   */
  lemma ServerResponseReadsBack(status: nat, reason: string, contentType: string, body: seq<byte>)
    requires IsLineText(reason) && IsLineText(contentType)
    ensures var r := Response(status, reason, ServerFields(contentType, |body|), body);
      && ParseResponse(Serialize(r)) == Some(r)
      && ContentLengthMatches(r)
      && FieldValue(r.fields, "Content-Type") == Some(contentType)
  {
    var r := Response(status, reason, ServerFields(contentType, |body|), body);
    ServerFieldsOk(contentType, |body|);
    assert WellFormed(r);
    ParseSerialize(r);
    ServerContentLength(contentType, |body|);
    ParseNatToString(|body|);
  }

  /** A client reads `200 OK`, the given type and a matching length back from a 200 response. */
  lemma OkReadsBack(contentType: string, body: seq<byte>)
    requires IsLineText(contentType)
    ensures var r := OkResponse(contentType, body);
      && ParseResponse(Serialize(r)) == Some(r)
      && r.status == 200 && r.reason == "OK" && r.body == body
      && ContentLengthMatches(r)
      && FieldValue(r.fields, "Content-Type") == Some(contentType)
  {
    assert IsLineText("OK") by {}
    ServerResponseReadsBack(200, "OK", contentType, body);
  }

  /** A client reads `404 Not Found`, `text/html` and a matching length back from the 404 response. */
  lemma NotFoundReadsBack()
    ensures var r := NotFoundResponse();
      && ParseResponse(Serialize(r)) == Some(r)
      && r.status == 404 && r.reason == "Not Found" && r.body == NotFoundBody()
      && ContentLengthMatches(r)
      && FieldValue(r.fields, "Content-Type") == Some("text/html")
  {
    assert IsLineText("Not Found") by {}
    assert IsLineText("text/html") by {}
    ServerResponseReadsBack(404, "Not Found", "text/html", NotFoundBody());
  }
}
