/**
 * The pieces of Python's `str` API the request handler relies on:
 * `sep.join(parts)`, `s.split(c)`, `s.lstrip(c)` and `s.endswith(t)`,
 * plus the first/last-occurrence splits a reader of the server's output
 * uses to take a line apart again.
 */
module Strings {
  import opened Wrappers

  /** `sep.join(parts)`. */
  function Join(parts: seq<string>, sep: string): string
  {
    if |parts| == 0 then ""
    else if |parts| == 1 then parts[0]
    else parts[0] + sep + Join(parts[1..], sep)
  }

  /** The number of occurrences of `c` in `s`. */
  function Count(s: string, c: char): nat
  {
    if s == [] then 0 else (if s[0] == c then 1 else 0) + Count(s[1..], c)
  }

  /** Prepending a character to the first part prepends it to the join. */
  lemma JoinPrepend(h: char, parts: seq<string>, sep: string)
    requires |parts| >= 1
    ensures Join([[h] + parts[0]] + parts[1..], sep) == [h] + Join(parts, sep)
  {
    var q := [[h] + parts[0]] + parts[1..];
    assert q[1..] == parts[1..];
  }

  /**
   * `s.split(c)` with an explicit separator: every occurrence of `c` cuts,
   * so adjacent separators give empty parts and there is always one more
   * part than separators. Joining the parts with `c` gives `s` back.
   */
  function Split(s: string, c: char): (r: seq<string>)
    ensures |r| == Count(s, c) + 1
    ensures forall i | 0 <= i < |r| :: c !in r[i]
    ensures Join(r, [c]) == s
    decreases |s|
  {
    if s == [] then [""]
    else
      var rest := Split(s[1..], c);
      if s[0] == c then
        assert Join([""] + rest, [c]) == [c] + Join(rest, [c]) by {
          assert ([""] + rest)[1..] == rest;
        }
        [""] + rest
      else
        JoinPrepend(s[0], rest, [c]);
        [[s[0]] + rest[0]] + rest[1..]
  }

  /**
   * The other round trip: parts that do not contain `c`, joined with `c`,
   * split back into exactly those parts.
   */
  lemma {:induction false} SplitJoin(parts: seq<string>, c: char)
    requires |parts| >= 1
    requires forall i | 0 <= i < |parts| :: c !in parts[i]
    ensures Split(Join(parts, [c]), c) == parts
    decreases |parts|, |parts[0]|
  {
    var s := Join(parts, [c]);
    if parts[0] == "" {
      if |parts| == 1 {
        assert s == "";
      } else {
        assert s == [c] + Join(parts[1..], [c]);
        assert s[1..] == Join(parts[1..], [c]);
        SplitJoin(parts[1..], c);
        assert parts == [""] + parts[1..];
      }
    } else {
      var h := parts[0][0];
      var q := [parts[0][1..]] + parts[1..];
      assert parts[0] == [h] + q[0];
      assert q[1..] == parts[1..];
      JoinPrepend(h, q, [c]);
      assert [[h] + q[0]] + q[1..] == parts;
      assert s == [h] + Join(q, [c]);
      assert s[1..] == Join(q, [c]);
      assert c !in q[0] by {
        assert forall k | 0 <= k < |q[0]| :: q[0][k] == parts[0][k + 1];
      }
      SplitJoin(q, c);
    }
  }

  /** Each line followed by `sep`. */
  function Terminated(lines: seq<string>, sep: string): string
  {
    if lines == [] then "" else lines[0] + sep + Terminated(lines[1..], sep)
  }

  /**
   * Joining a list whose last element is the separator itself terminates
   * every element with the separator and then adds one more: the idiom
   * that ends an HTTP header block with a blank line.
   */
  lemma {:induction false} JoinWithTerminator(lines: seq<string>, sep: string)
    ensures Join(lines + [sep], sep) == Terminated(lines, sep) + sep
  {
    if lines != [] {
      var all := lines + [sep];
      assert all[0] == lines[0];
      assert all[1..] == lines[1..] + [sep];
      JoinWithTerminator(lines[1..], sep);
    }
  }

  /** `s.lstrip(c)`: removes every leading `c`, not only the first. */
  function LStrip(s: string, c: char): (r: string)
    ensures |r| <= |s| && r == s[|s| - |r|..]
    ensures forall i | 0 <= i < |s| - |r| :: s[i] == c
    ensures r == [] || r[0] != c
  {
    if s != [] && s[0] == c then LStrip(s[1..], c) else s
  }

  /** `s.endswith(suffix)`. */
  predicate EndsWith(s: string, suffix: string)
  {
    |suffix| <= |s| && s[|s| - |suffix|..] == suffix
  }

  /** `s` without its `suffix`, when it has one. */
  function StripSuffix(s: string, suffix: string): (r: Option<string>)
    ensures r.Some? <==> EndsWith(s, suffix)
    ensures r.Some? ==> s == r.value + suffix
  {
    if EndsWith(s, suffix) then Some(s[..|s| - |suffix|]) else None
  }

  lemma StripSuffixOf(a: string, suffix: string)
    ensures StripSuffix(a + suffix, suffix) == Some(a)
  {
    var s := a + suffix;
    assert s[|s| - |suffix|..] == suffix;
    assert s[..|s| - |suffix|] == a;
  }

  /** Cuts `s` at the first occurrence of `c`. */
  function SplitFirst(s: string, c: char): (r: Option<(string, string)>)
    ensures r.Some? ==> s == r.value.0 + [c] + r.value.1 && c !in r.value.0
    ensures r.None? ==> c !in s
  {
    if s == [] then None
    else if s[0] == c then Some(([], s[1..]))
    else match SplitFirst(s[1..], c)
      case None => None
      case Some(p) => Some(([s[0]] + p.0, p.1))
  }

  lemma {:induction false} SplitFirstAt(a: string, b: string, c: char)
    requires c !in a
    ensures SplitFirst(a + [c] + b, c) == Some((a, b))
  {
    var s := a + [c] + b;
    if a != [] {
      assert s[0] == a[0];
      assert s[1..] == a[1..] + [c] + b;
      SplitFirstAt(a[1..], b, c);
      assert [a[0]] + a[1..] == a;
    } else {
      assert s[1..] == b;
    }
  }

  /** Cuts `s` at the last occurrence of `c`. */
  function SplitLast(s: string, c: char): (r: Option<(string, string)>)
    ensures r.Some? ==> s == r.value.0 + [c] + r.value.1 && c !in r.value.1
    ensures r.None? ==> c !in s
  {
    if s == [] then None
    else if s[|s| - 1] == c then Some((s[..|s| - 1], []))
    else match SplitLast(s[..|s| - 1], c)
      case None => None
      case Some(p) =>
        assert s == s[..|s| - 1] + [s[|s| - 1]];
        Some((p.0, p.1 + [s[|s| - 1]]))
  }

  lemma {:induction false} SplitLastAt(a: string, b: string, c: char)
    requires c !in b
    ensures SplitLast(a + [c] + b, c) == Some((a, b))
  {
    var s := a + [c] + b;
    if b != [] {
      var b' := b[..|b| - 1];
      assert s[|s| - 1] == b[|b| - 1];
      assert s[..|s| - 1] == a + [c] + b';
      SplitLastAt(a, b', c);
      assert b' + [b[|b| - 1]] == b;
    } else {
      assert s[..|s| - 1] == a;
    }
  }
}
