/**
 * The browser's `btoa` and `atob` on binary strings, whose characters are bytes.
 * `Btoa` is the base64 encoding of section 4 of RFC 4648 with `=` padding; `Atob` is the
 * forgiving-base64 decode of the WHATWG HTML standard that browsers run (ASCII whitespace is
 * dropped, one or two trailing `=` are optional, anything else outside the alphabet fails).
 */
module Base64 {
  import opened Common

  /** A 6-bit group, the value one base64 character carries. */
  type sextet = x: int | 0 <= x < 64

  /** The character for a 6-bit value: Table 1 in section 4 of RFC 4648. */
  function CharOf(v: sextet): char
  {
    if v < 26 then ('A' as int + v) as char
    else if v < 52 then ('a' as int + (v - 26)) as char
    else if v < 62 then ('0' as int + (v - 52)) as char
    else if v == 62 then '+'
    else '/'
  }

  predicate IsAlphabetChar(c: char)
  {
    ('A' <= c <= 'Z') || ('a' <= c <= 'z') || ('0' <= c <= '9') || c == '+' || c == '/'
  }

  /** The value of an alphabet character, or None for any other character. */
  function SextetOf(c: char): (r: Option<sextet>)
    ensures r.Some? <==> IsAlphabetChar(c)
  {
    if 'A' <= c <= 'Z' then Some(c as int - 'A' as int)
    else if 'a' <= c <= 'z' then Some(c as int - 'a' as int + 26)
    else if '0' <= c <= '9' then Some(c as int - '0' as int + 52)
    else if c == '+' then Some(62)
    else if c == '/' then Some(63)
    else None
  }

  lemma CharOfInverse(v: sextet)
    ensures IsAlphabetChar(CharOf(v)) && SextetOf(CharOf(v)) == Some(v)
  {
  }

  /**
   * The input split into 6-bit groups, most significant bits first: every 3 bytes give 4
   * groups, and a final 1 or 2 bytes give 2 or 3 groups filled with zero bits on the right.
   */
  function Sextets(b: seq<byte>): (q: seq<sextet>)
    ensures |q| == 4 * (|b| / 3) + (if |b| % 3 == 0 then 0 else |b| % 3 + 1)
    decreases |b|
  {
    if |b| == 0 then []
    else if |b| == 1 then [b[0] / 4, (b[0] % 4) * 16]
    else if |b| == 2 then [b[0] / 4, (b[0] % 4) * 16 + b[1] / 16, (b[1] % 16) * 4]
    else Group(b[0], b[1], b[2]) + Sextets(b[3..])
  }

  function Chars(q: seq<sextet>): (s: string)
    ensures |s| == |q|
  {
    seq(|q|, i requires 0 <= i < |q| => CharOf(q[i]))
  }

  /** The `=` characters that complete the last quantum of n input bytes. */
  function Padding(n: nat): string
  {
    if n % 3 == 1 then "==" else if n % 3 == 2 then "=" else ""
  }

  /** btoa: the base64 text of a binary string; four characters per started group of three bytes. */
  function Btoa(b: seq<byte>): (s: string)
    ensures |s| == 4 * ((|b| + 2) / 3)
    ensures s == [] <==> b == []
  {
    Chars(Sextets(b)) + Padding(|b|)
  }

  /** TAB, LF, FF, CR and SPACE: the characters atob skips. */
  predicate IsAsciiWhitespace(c: char)
  {
    c == ' ' || c == '\t' || c == '\n' || c == '\r' || c as int == 12
  }

  function StripWhitespace(s: string): string
  {
    if s == [] then []
    else (if IsAsciiWhitespace(s[0]) then [] else [s[0]]) + StripWhitespace(s[1..])
  }

  /** When the length is a multiple of four, one or two trailing `=` are removed. */
  function StripPadding(s: string): string
  {
    if |s| % 4 == 0 && |s| >= 2 && s[|s| - 2] == '=' && s[|s| - 1] == '=' then s[..|s| - 2]
    else if |s| % 4 == 0 && |s| >= 1 && s[|s| - 1] == '=' then s[..|s| - 1]
    else s
  }

  /** The values of the characters, or None if one of them is outside the alphabet. */
  function SextetsOf(s: string): Option<seq<sextet>>
  {
    if s == [] then Some([])
    else match SextetOf(s[0])
      case None => None
      case Some(v) =>
        match SextetsOf(s[1..])
        case None => None
        case Some(rest) => Some([v] + rest)
  }

  /** Reassemble bytes from 6-bit groups; a final 2 or 3 groups give 1 or 2 bytes, the rest bits dropped. */
  function BytesOf(q: seq<sextet>): seq<byte>
    requires |q| % 4 != 1
    decreases |q|
  {
    if |q| == 0 then []
    else
      var q0, q1 := q[0] as int, q[1] as int;
      if |q| == 2 then [q0 * 4 + q1 / 16]
      else
        var q2 := q[2] as int;
        if |q| == 3 then [q0 * 4 + q1 / 16, (q1 % 16) * 16 + q2 / 4]
        else [q0 * 4 + q1 / 16, (q1 % 16) * 16 + q2 / 4, (q2 % 4) * 64 + q[3] as int]
             + BytesOf(q[4..])
  }

  /** atob: the binary string a base64 text stands for, or None where atob throws. */
  function Atob(s: string): Option<seq<byte>>
  {
    var t := StripPadding(StripWhitespace(s));
    if |t| % 4 == 1 then None
    else match SextetsOf(t)
      case None => None
      case Some(q) => if |q| % 4 == 1 then None else Some(BytesOf(q))
  }

  // ---------------------------------------------------------------------------------------
  // The round trip atob(btoa(b)) == b

  lemma {:induction false} StripWhitespaceNoop(s: string)
    requires forall i :: 0 <= i < |s| ==> !IsAsciiWhitespace(s[i])
    ensures StripWhitespace(s) == s
  {
    if s != [] {
      StripWhitespaceNoop(s[1..]);
    }
  }

  lemma {:induction false} SextetsOfChars(q: seq<sextet>)
    ensures SextetsOf(Chars(q)) == Some(q)
  {
    if q != [] {
      var s := Chars(q);
      assert s[1..] == Chars(q[1..]);
      CharOfInverse(q[0]);
      SextetsOfChars(q[1..]);
      assert [q[0]] + q[1..] == q;
    }
  }

  /** One group of three bytes survives the split into four sextets and back. */
  lemma GroupRoundTrip(b0: byte, b1: byte, b2: byte)
    ensures var s0, s1, s2, s3 := b0 / 4, (b0 % 4) * 16 + b1 / 16, (b1 % 16) * 4 + b2 / 64, b2 % 64;
            && s0 * 4 + s1 / 16 == b0
            && (s1 % 16) * 16 + s2 / 4 == b1
            && (s2 % 4) * 64 + s3 == b2
  {
  }

  /** The four sextets of three bytes, as Sextets splits them. */
  function Group(b0: byte, b1: byte, b2: byte): (head: seq<sextet>)
    ensures |head| == 4
  {
    [b0 / 4, (b0 % 4) * 16 + b1 / 16, (b1 % 16) * 4 + b2 / 64, b2 % 64]
  }

  /** BytesOf turns a leading group of four sextets back into its three bytes. */
  lemma BytesOfGroup(b0: byte, b1: byte, b2: byte, rest: seq<sextet>)
    requires |rest| % 4 != 1
    ensures |Group(b0, b1, b2) + rest| % 4 != 1
    ensures BytesOf(Group(b0, b1, b2) + rest) == [b0, b1, b2] + BytesOf(rest)
  {
    var q := Group(b0, b1, b2) + rest;
    assert q[4..] == rest;
    GroupRoundTrip(b0, b1, b2);
  }

  lemma {:induction false} BytesOfSextets(b: seq<byte>)
    ensures |Sextets(b)| % 4 != 1
    ensures BytesOf(Sextets(b)) == b
    decreases |b|
  {
    if |b| >= 3 {
      assert Sextets(b) == Group(b[0], b[1], b[2]) + Sextets(b[3..]);
      BytesOfSextets(b[3..]);
      BytesOfGroup(b[0], b[1], b[2], Sextets(b[3..]));
      assert b == [b[0], b[1], b[2]] + b[3..];
    } else if |b| == 2 {
      ShortGroupRoundTrip(b);
    } else if |b| == 1 {
      ShortGroupRoundTrip(b);
    }
  }

  /** A final one or two bytes survive the split into two or three sextets and back. */
  lemma ShortGroupRoundTrip(b: seq<byte>)
    requires 1 <= |b| <= 2
    ensures |Sextets(b)| % 4 != 1 && BytesOf(Sextets(b)) == b
  {
    if |b| == 2 {
      GroupRoundTrip(b[0], b[1], 0);
    } else {
      GroupRoundTrip(b[0], 0, 0);
    }
  }

  lemma NoPadCharInChars(q: seq<sextet>)
    ensures forall i :: 0 <= i < |q| ==> Chars(q)[i] != '=' && !IsAsciiWhitespace(Chars(q)[i])
  {
    forall i | 0 <= i < |q| ensures Chars(q)[i] != '=' && !IsAsciiWhitespace(Chars(q)[i]) {
      CharOfInverse(q[i]);
    }
  }

  /** Removing the padding btoa appended gives back the unpadded text. */
  lemma StripPaddingAppend(c: string, pad: string)
    requires pad == "" || pad == "=" || pad == "=="
    requires |c + pad| % 4 == 0
    requires |c| > 0 ==> c[|c| - 1] != '='
    requires pad != "" ==> |c| > 0
    ensures StripPadding(c + pad) == c
  {
    var s := c + pad;
    if pad == "==" {
      assert s[..|s| - 2] == c;
    } else if pad == "=" {
      assert s[..|s| - 1] == c;
      assert s[|s| - 2] == c[|c| - 1];
    } else {
      assert s == c;
    }
  }

  lemma StripPaddingOfBtoa(b: seq<byte>)
    ensures StripPadding(Btoa(b)) == Chars(Sextets(b))
  {
    NoPadCharInChars(Sextets(b));
    StripPaddingAppend(Chars(Sextets(b)), Padding(|b|));
  }

  /** atob undoes btoa on every binary string. */
  lemma AtobBtoa(b: seq<byte>)
    ensures Atob(Btoa(b)) == Some(b)
  {
    var s := Btoa(b);
    var c := Chars(Sextets(b));
    NoPadCharInChars(Sextets(b));
    forall i | 0 <= i < |s| ensures !IsAsciiWhitespace(s[i]) {
      if i >= |c| {
        assert s[i] == Padding(|b|)[i - |c|];
      }
    }
    StripWhitespaceNoop(s);
    StripPaddingOfBtoa(b);
    SextetsOfChars(Sextets(b));
    BytesOfSextets(b);
  }
}
