/**
 * Request-line parsing in `handle_client`: the first line of the decoded
 * request, split on single spaces, must give exactly method, path and
 * version (the shape of section 3.1.1 of RFC 9112, with no further
 * validation of any token).
 */
module RequestParser {
  import opened Strings

  datatype Request = Request(verb: string, path: string, version: string)

  /**
   * Unpacking the split into three names either succeeds or raises
   * (too many or too few values); the failure records how many tokens
   * there were.
   */
  datatype ParseResult = Parsed(request: Request) | Malformed(tokenCount: nat)

  /** `request.split('\n')[0]`: the text before the first line feed, or all of it. */
  function FirstLine(text: string): (line: string)
    ensures '\n' !in line
    ensures |line| <= |text| && text[..|line|] == line
    ensures |line| == |text| || text[|line|] == '\n'
  {
    var parts := Split(text, '\n');
    assert |parts| > 1 ==> text == parts[0] + "\n" + Join(parts[1..], "\n");
    parts[0]
  }

  /** The first line is determined by where the first line feed is. */
  lemma FirstLineOf(line: string, rest: string)
    requires '\n' !in line
    ensures FirstLine(line + "\n" + rest) == line
    ensures FirstLine(line) == line
  {
    var s := line + "\n" + rest;
    var r := FirstLine(s);
    forall i | 0 <= i < |r| ensures s[i] != '\n' {
      assert s[i] == r[i];
    }
    assert s[|line|] == '\n';
    assert s[..|line|] == line;
  }

  /** `method, path, version = first_line.split(' ')`. */
  function ParseRequestLine(text: string): (r: ParseResult)
    ensures r.Parsed? <==> Count(FirstLine(text), ' ') == 2
    ensures r.Malformed? ==> r.tokenCount == Count(FirstLine(text), ' ') + 1 != 3
    ensures r.Parsed? ==>
      var q := r.request;
      && FirstLine(text) == q.verb + " " + q.path + " " + q.version
      && ' ' !in q.verb && ' ' !in q.path && ' ' !in q.version
  {
    var tokens := Split(FirstLine(text), ' ');
    if |tokens| == 3 then
      assert Join(tokens, " ") == tokens[0] + " " + tokens[1] + " " + tokens[2] by {
        assert [' '] == " ";
        assert tokens[1..][1..] == [tokens[2]];
        assert Join(tokens[1..], " ") == tokens[1] + " " + tokens[2];
      }
      Parsed(Request(tokens[0], tokens[1], tokens[2]))
    else
      Malformed(|tokens|)
  }

  /**
   * A well-formed request line, alone or followed by further lines,
   * parses to exactly its three tokens.
   */
  lemma ParseFormattedLine(m: string, p: string, v: string, rest: string)
    requires ' ' !in m && ' ' !in p && ' ' !in v
    requires '\n' !in m && '\n' !in p && '\n' !in v
    ensures ParseRequestLine(m + " " + p + " " + v + "\n" + rest) == Parsed(Request(m, p, v))
    ensures ParseRequestLine(m + " " + p + " " + v) == Parsed(Request(m, p, v))
  {
    var line := m + " " + p + " " + v;
    assert '\n' !in line;
    FirstLineOf(line, rest);
    var parts := [m, p, v];
    assert Join(parts, " ") == line by {
      assert parts[1..] == [p, v];
      assert parts[1..][1..] == [v];
      assert Join(parts[1..], " ") == p + " " + v;
    }
    assert [' '] == " ";
    SplitJoin(parts, ' ');
  }
}
