/**
 * The access log: one line per answered request, naming the time, the
 * client's address, the requested path and the status code sent. The
 * wording of the line is the server's own (in Russian).
 */
module RequestLog {
  import opened Wrappers
  import opened Strings
  import opened Decimal

  /** A client's address as `accept` reports it: host and port. */
  datatype Address = Address(host: string, port: nat)

  /** What a log line records. */
  datatype Entry = Entry(time: string, client: Address, path: string, status: nat)

  const Requested := " - запросил"
  const StatusWord := "' - статус"

  /**
   * The line `log_request` appends for a request: the formatted time in
   * brackets, `host:port`, the path in single quotes and the status code,
   * ending in a newline.
   */
  function LogLine(time: string, client: Address, path: string, status: nat): string
  {
    "[" + time + "] " + client.host + ":" + NatToString(client.port)
      + Requested + " '" + path + StatusWord + " " + NatToString(status) + "\n"
  }

  /**
   * Reads a log line back, working from the end: the status code after the
   * last space, the quoted path after the space before the status wording,
   * the address after the space that follows the bracketed time.
   */
  function ParseLogLine(line: string): Option<Entry>
  {
    match StripSuffix(line, "\n")
    case None => None
    case Some(s) =>
      match SplitLast(s, ' ')
      case None => None
      case Some(sc) =>
        match (ParseNat(sc.1), StripSuffix(sc.0, StatusWord))
        case (Some(status), Some(b)) => ParseRequested(b, status)
        case _ => None
  }

  /** The part `[time] host:port - запросил 'path`. */
  function ParseRequested(b: string, status: nat): Option<Entry>
  {
    match SplitLast(b, ' ')
    case None => None
    case Some(bp) =>
      if |bp.1| == 0 || bp.1[0] != '\'' then None
      else match StripSuffix(bp.0, Requested)
        case None => None
        case Some(d) =>
          match SplitLast(d, ' ')
          case None => None
          case Some(dh) =>
            match (ParseBracketed(dh.0), SplitLast(dh.1, ':'))
            case (Some(time), Some(hp)) =>
              (match ParseNat(hp.1)
               case Some(port) => Some(Entry(time, Address(hp.0, port), bp.1[1..], status))
               case None => None)
            case _ => None
  }

  /** `[time]` gives `time`. */
  function ParseBracketed(e: string): Option<string>
  {
    if |e| >= 2 && e[0] == '[' && e[|e| - 1] == ']' then Some(e[1..|e| - 1]) else None
  }

  /**
   * Reading a log line back gives what was logged, provided neither the
   * host nor the path holds a space (the request line is split at spaces,
   * so a logged path never does; a numeric host address does not either).
   */
  lemma ParseLogLineOf(time: string, client: Address, path: string, status: nat)
    requires ' ' !in client.host && ' ' !in path
    ensures ParseLogLine(LogLine(time, client, path, status)) == Some(Entry(time, client, path, status))
  {
    var code := NatToString(status);
    DigitsHaveNoDelimiters(code);
    var b := RequestedPart(time, client, path);
    var a := b + StatusWord;
    var s := a + " " + code;
    assert LogLine(time, client, path, status) == s + "\n";
    StripSuffixOf(s, "\n");
    SplitLastAt(a, code, ' ');
    ParseNatToString(status);
    StripSuffixOf(b, StatusWord);
    ParseRequestedOf(time, client, path, status);
  }

  function RequestedPart(time: string, client: Address, path: string): string
  {
    "[" + time + "] " + client.host + ":" + NatToString(client.port) + Requested + " '" + path
  }

  lemma ParseRequestedOf(time: string, client: Address, path: string, status: nat)
    requires ' ' !in client.host && ' ' !in path
    ensures ParseRequested(RequestedPart(time, client, path), status) == Some(Entry(time, client, path, status))
  {
    var port := NatToString(client.port);
    DigitsHaveNoDelimiters(port);
    var hostPort := client.host + ":" + port;
    var d := "[" + time + "]" + " " + hostPort;
    var c := d + Requested;
    var quoted := "'" + path;
    assert RequestedPart(time, client, path) == c + " " + quoted;
    assert ' ' !in quoted;
    SplitLastAt(c, quoted, ' ');
    StripSuffixOf(d, Requested);
    ParseAddressPartOf(time, client);
    assert quoted[1..] == path;
  }

  /** The part `[time] host:port`. */
  lemma ParseAddressPartOf(time: string, client: Address)
    requires ' ' !in client.host
    ensures var d := "[" + time + "]" + " " + client.host + ":" + NatToString(client.port);
      && SplitLast(d, ' ') == Some(("[" + time + "]", client.host + ":" + NatToString(client.port)))
      && ParseBracketed("[" + time + "]") == Some(time)
      && SplitLast(client.host + ":" + NatToString(client.port), ':') == Some((client.host, NatToString(client.port)))
      && ParseNat(NatToString(client.port)) == Some(client.port)
  {
    var port := NatToString(client.port);
    DigitsHaveNoDelimiters(port);
    var hostPort := client.host + ":" + port;
    var e := "[" + time + "]";
    assert ' ' !in hostPort;
    assert e + " " + hostPort == e + " " + client.host + ":" + port;
    SplitLastAt(e, hostPort, ' ');
    assert e[1..|e| - 1] == time;
    SplitLastAt(client.host, port, ':');
    ParseNatToString(client.port);
  }
}
