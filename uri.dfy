/**
 * Percent-encoding of ASCII text: ECMAScript's `encodeURIComponent`/`decodeURIComponent`
 * (percent-encoding as in section 2.1 of RFC 3986) and the application/x-www-form-urlencoded
 * serializer that `URLSearchParams` uses when it is turned into a query string.
 */
module Uri {
  import opened Common

  predicate IsAscii(s: string)
  {
    forall i :: 0 <= i < |s| ==> s[i] as int < 128
  }

  predicate IsAlphanumeric(c: char)
  {
    ('A' <= c <= 'Z') || ('a' <= c <= 'z') || ('0' <= c <= '9')
  }

  /** The characters encodeURIComponent leaves alone: letters, digits and - _ . ! ~ * ' ( ) */
  predicate IsComponentSafe(c: char)
  {
    IsAlphanumeric(c) || c == '-' || c == '_' || c == '.' || c == '!' || c == '~' || c == '*'
    || c == '\'' || c == '(' || c == ')'
  }

  /** The characters the form serializer leaves alone: letters, digits and * - . _ */
  predicate IsFormSafe(c: char)
  {
    IsAlphanumeric(c) || c == '*' || c == '-' || c == '.' || c == '_'
  }

  /** An upper-case hexadecimal digit, as both encoders emit. */
  function HexDigit(v: int): char
    requires 0 <= v < 16
  {
    if v < 10 then ('0' as int + v) as char else ('A' as int + (v - 10)) as char
  }

  /** The value of a hexadecimal digit of either case. */
  function HexValue(c: char): (r: Option<int>)
    ensures r.Some? ==> 0 <= r.value < 16
  {
    if '0' <= c <= '9' then Some(c as int - '0' as int)
    else if 'A' <= c <= 'F' then Some(c as int - 'A' as int + 10)
    else if 'a' <= c <= 'f' then Some(c as int - 'a' as int + 10)
    else None
  }

  lemma HexValueOfDigit(v: int)
    requires 0 <= v < 16
    ensures HexValue(HexDigit(v)) == Some(v)
  {
  }

  /** `%` followed by the two hexadecimal digits of an ASCII character. */
  function Escape(c: char): (s: string)
    requires c as int < 128
    ensures |s| == 3 && s[0] == '%' && IsAscii(s)
  {
    ['%', HexDigit(c as int / 16), HexDigit(c as int % 16)]
  }

  /** encodeURIComponent on ASCII text: every character outside the safe set becomes its escape. */
  function EncodeURIComponent(s: string): (r: string)
    requires IsAscii(s)
    ensures |r| >= |s|
  {
    if s == [] then []
    else (if IsComponentSafe(s[0]) then [s[0]] else Escape(s[0])) + EncodeURIComponent(s[1..])
  }

  /** Percent-encoded ASCII text is ASCII. */
  lemma {:induction false} EncodeURIComponentIsAscii(s: string)
    requires IsAscii(s)
    ensures IsAscii(EncodeURIComponent(s))
  {
    if s != [] {
      assert IsAscii(s[1..]) by {
        forall i | 0 <= i < |s[1..]| ensures s[1..][i] as int < 128 {
          assert s[1..][i] == s[i + 1];
        }
      }
      EncodeURIComponentIsAscii(s[1..]);
      var head := if IsComponentSafe(s[0]) then [s[0]] else Escape(s[0]);
      var r := head + EncodeURIComponent(s[1..]);
      forall i | 0 <= i < |r| ensures r[i] as int < 128 {
        if i >= |head| {
          assert r[i] == EncodeURIComponent(s[1..])[i - |head|];
        }
      }
    }
  }

  function PrependTo(c: char, rest: Option<string>): Option<string>
  {
    match rest
    case None => None
    case Some(t) => Some([c] + t)
  }

  /**
   * decodeURIComponent, or None where it throws a URIError: a `%` not followed by two
   * hexadecimal digits, or an escape of a byte of 0x80 or more.
   */
  function DecodeURIComponent(s: string): Option<string>
    decreases |s|
  {
    if s == [] then Some([])
    else if s[0] != '%' then PrependTo(s[0], DecodeURIComponent(s[1..]))
    else if |s| < 3 then None
    else
      match (HexValue(s[1]), HexValue(s[2]))
      case (Some(hi), Some(lo)) =>
        if hi * 16 + lo < 128 then PrependTo((hi * 16 + lo) as char, DecodeURIComponent(s[3..]))
        else None
      case _ => None
  }

  /** decodeURIComponent undoes encodeURIComponent on every ASCII text. */
  lemma {:induction false} DecodeEncodeURIComponent(s: string)
    requires IsAscii(s)
    ensures DecodeURIComponent(EncodeURIComponent(s)) == Some(s)
  {
    if s != [] {
      var rest := EncodeURIComponent(s[1..]);
      assert IsAscii(s[1..]) by {
        forall i | 0 <= i < |s[1..]| ensures s[1..][i] as int < 128 {
          assert s[1..][i] == s[i + 1];
        }
      }
      DecodeEncodeURIComponent(s[1..]);
      if IsComponentSafe(s[0]) {
        assert ([s[0]] + rest)[1..] == rest;
      } else {
        DecodeEscape(s[0], rest, s[1..]);
      }
      assert [s[0]] + s[1..] == s;
    }
  }

  /** An escape followed by text that decodes to t decodes to the escaped character before t. */
  lemma DecodeEscape(c: char, rest: string, t: string)
    requires c as int < 128 && DecodeURIComponent(rest) == Some(t)
    ensures DecodeURIComponent(Escape(c) + rest) == Some([c] + t)
  {
    var v := c as int;
    var e := Escape(c) + rest;
    HexValueOfDigit(v / 16);
    HexValueOfDigit(v % 16);
    assert e[3..] == rest;
    assert e[0] == '%' && e[1] == HexDigit(v / 16) && e[2] == HexDigit(v % 16);
    assert (v / 16) * 16 + v % 16 == v;
  }

  /**
   * The form serialization of one value: a space becomes `+`, the form-safe characters stay,
   * every other ASCII character becomes its escape.
   */
  function FormUrlEncode(s: string): (r: string)
    requires IsAscii(s)
    ensures |r| >= |s|
  {
    if s == [] then []
    else
      (if s[0] == ' ' then "+" else if IsFormSafe(s[0]) then [s[0]] else Escape(s[0]))
      + FormUrlEncode(s[1..])
  }

  /**
   * The percent-decoding of the application/x-www-form-urlencoded parser, after its `+` to
   * space replacement: `%` and two hexadecimal digits give the character of that byte, and a
   * `%` not followed by two hexadecimal digits stays as it is. The parser never fails.
   */
  function FormUrlDecode(s: string): string
    decreases |s|
  {
    if s == [] then []
    else if s[0] == '+' then " " + FormUrlDecode(s[1..])
    else if s[0] == '%' && |s| >= 3 && HexValue(s[1]).Some? && HexValue(s[2]).Some? then
      [(HexValue(s[1]).value * 16 + HexValue(s[2]).value) as char] + FormUrlDecode(s[3..])
    else [s[0]] + FormUrlDecode(s[1..])
  }

  /** Every character of a form serialization is form-safe, `+` or `%`. */
  lemma {:induction false} FormUrlEncodeAlphabet(s: string)
    requires IsAscii(s)
    ensures forall i :: 0 <= i < |FormUrlEncode(s)| ==>
              IsFormSafe(FormUrlEncode(s)[i]) || FormUrlEncode(s)[i] == '+' || FormUrlEncode(s)[i] == '%'
  {
    if s != [] {
      assert IsAscii(s[1..]) by {
        forall i | 0 <= i < |s[1..]| ensures s[1..][i] as int < 128 {
          assert s[1..][i] == s[i + 1];
        }
      }
      FormUrlEncodeAlphabet(s[1..]);
    }
  }

  /** The form parser's decoding undoes the form serialization on every ASCII text. */
  lemma {:induction false} FormUrlDecodeEncode(s: string)
    requires IsAscii(s)
    ensures FormUrlDecode(FormUrlEncode(s)) == s
  {
    if s != [] {
      var rest := FormUrlEncode(s[1..]);
      assert IsAscii(s[1..]) by {
        forall i | 0 <= i < |s[1..]| ensures s[1..][i] as int < 128 {
          assert s[1..][i] == s[i + 1];
        }
      }
      FormUrlDecodeEncode(s[1..]);
      if s[0] == ' ' {
        assert ("+" + rest)[1..] == rest;
      } else if IsFormSafe(s[0]) {
        assert ([s[0]] + rest)[1..] == rest;
      } else {
        FormDecodeEscape(s[0], rest);
      }
      assert [s[0]] + s[1..] == s;
    }
  }

  /** An escape decodes to the escaped character, whatever follows it. */
  lemma FormDecodeEscape(c: char, rest: string)
    requires c as int < 128
    ensures FormUrlDecode(Escape(c) + rest) == [c] + FormUrlDecode(rest)
  {
    var v := c as int;
    var e := Escape(c) + rest;
    HexValueOfDigit(v / 16);
    HexValueOfDigit(v % 16);
    assert e[3..] == rest;
    assert e[0] == '%' && e[1] == HexDigit(v / 16) && e[2] == HexDigit(v % 16);
    assert (v / 16) * 16 + v % 16 == v;
  }

  /**
   * encodeURIComponent on one character of base64 text: letters and digits stay, and the
   * three other characters + / and = become %2B, %2F and %3D.
   */
  lemma EncodeBase64Character(c: char)
    requires IsAlphanumeric(c) || c == '+' || c == '/' || c == '='
    ensures IsAlphanumeric(c) ==> EncodeURIComponent([c]) == [c]
    ensures c == '+' ==> EncodeURIComponent([c]) == "%2B"
    ensures c == '/' ==> EncodeURIComponent([c]) == "%2F"
    ensures c == '=' ==> EncodeURIComponent([c]) == "%3D"
  {
    assert [c][1..] == [];
  }

  /** The query-string serializer escapes the `%` of an already percent-encoded value. */
  lemma FormEncodeOfEscape()
    ensures FormUrlEncode("a%2B") == "a%252B"
  {
    assert FormUrlEncode("B") == "B";
    assert FormUrlEncode("2B") == "2B";
    assert FormUrlEncode("%2B") == "%252B";
  }
}
