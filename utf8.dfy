/**
 * Bytes and the UTF-8 encoder the server applies to its status line and
 * header block (`str.encode('utf-8')`), plus the byte-to-character view a
 * client uses to read those lines back.
 */
module Utf8 {
  type byte = x: int | 0 <= x < 256

  const CR: byte := 13
  const LF: byte := 10

  predicate IsAscii(s: string) {
    forall i | 0 <= i < |s| :: s[i] as int < 128
  }

  /** The UTF-8 encoding of one Unicode scalar value (RFC 3629, section 3). */
  function EncodeChar(c: char): (r: seq<byte>)
    ensures c as int < 0x80 <==> |r| == 1
    ensures c as int < 0x80 ==> r == [c as int]
    ensures c as int >= 0x80 ==> 2 <= |r| <= 4 && forall i | 0 <= i < |r| :: r[i] >= 0x80
  {
    var n := c as int;
    if n < 0x80 then [n]
    else if n < 0x800 then [0xC0 + n / 64, 0x80 + n % 64]
    else if n < 0x10000 then [0xE0 + n / 4096, 0x80 + (n / 64) % 64, 0x80 + n % 64]
    else [0xF0 + n / 262144, 0x80 + (n / 4096) % 64, 0x80 + (n / 64) % 64, 0x80 + n % 64]
  }

  /** `s.encode('utf-8')`: the concatenated encodings of the characters of `s`. */
  function Encode(s: string): (r: seq<byte>)
    ensures |r| >= |s|
  {
    if s == [] then [] else EncodeChar(s[0]) + Encode(s[1..])
  }

  /** Each byte read as the character with the same code (ISO 8859-1). */
  function Latin1Decode(b: seq<byte>): (r: string)
    ensures |r| == |b|
    ensures forall i | 0 <= i < |b| :: r[i] as int == b[i]
  {
    seq(|b|, i requires 0 <= i < |b| => b[i] as char)
  }

  lemma AsciiConcat(a: string, b: string)
    requires IsAscii(a) && IsAscii(b)
    ensures IsAscii(a + b)
  {
    forall i | 0 <= i < |a + b| ensures (a + b)[i] as int < 128 {
      if i < |a| { assert (a + b)[i] == a[i]; } else { assert (a + b)[i] == b[i - |a|]; }
    }
  }

  /** The bytes of a bytes literal `b"..."`, which spells ASCII text. */
  function AsciiBytes(s: string): (b: seq<byte>)
    requires IsAscii(s)
    ensures |b| == |s|
  {
    seq(|s|, i requires 0 <= i < |s| => s[i] as int)
  }

  /** Encoding distributes over concatenation. */
  lemma {:induction false} EncodeConcat(a: string, b: string)
    ensures Encode(a + b) == Encode(a) + Encode(b)
  {
    if a == [] {
      assert a + b == b;
    } else {
      assert (a + b)[0] == a[0];
      assert (a + b)[1..] == a[1..] + b;
      EncodeConcat(a[1..], b);
    }
  }

  /** On ASCII text the encoder is the identity on character codes. */
  lemma {:induction false} EncodeAscii(s: string)
    requires IsAscii(s)
    ensures |Encode(s)| == |s|
    ensures forall i | 0 <= i < |s| :: Encode(s)[i] == s[i] as int
  {
    if s != [] {
      assert IsAscii(s[1..]) by {
        forall i | 0 <= i < |s[1..]| ensures s[1..][i] as int < 128 {
          assert s[1..][i] == s[i + 1];
        }
      }
      EncodeAscii(s[1..]);
      forall i | 0 <= i < |s| ensures Encode(s)[i] == s[i] as int {
        if i > 0 {
          assert Encode(s)[i] == Encode(s[1..])[i - 1];
          assert s[1..][i - 1] == s[i];
        }
      }
    }
  }

  /** A bytes literal is the UTF-8 encoding of its text. */
  lemma AsciiBytesAreEncoding(s: string)
    requires IsAscii(s)
    ensures AsciiBytes(s) == Encode(s)
  {
    EncodeAscii(s);
  }

  /** Reading the encoding of ASCII text byte by byte gives the text back. */
  lemma AsciiRoundTrip(s: string)
    requires IsAscii(s)
    ensures Latin1Decode(Encode(s)) == s
  {
    EncodeAscii(s);
  }

  /**
   * A character other than the one with code `b` never contributes the
   * byte `b` when `b` is ASCII: multi-byte encodings use only bytes
   * of 0x80 and above.
   */
  lemma {:induction false} EncodeAvoidsAsciiByte(s: string, c: char)
    requires c as int < 0x80
    requires c !in s
    ensures c as int !in Encode(s)
  {
    if s != [] {
      EncodeAvoidsAsciiByte(s[1..], c);
      var e := EncodeChar(s[0]);
      assert c as int !in e by {
        if s[0] as int < 0x80 {
          assert e == [s[0] as int];
          assert s[0] != c;
        }
      }
    }
  }
}
