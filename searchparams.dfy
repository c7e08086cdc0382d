/**
 * How a page reads the `d` value of its own address: the query of a URL, the
 * application/x-www-form-urlencoded parser that `new URLSearchParams(location.search)` runs on
 * it, and `get`, which answers the value of the first pair with the given name.
 */
module SearchParams {
  import opened Common
  import Uri

  /** A page URL built from protocol, host and pathname holds no `?` and no `#`. */
  predicate IsPageURL(url: string)
  {
    forall i :: 0 <= i < |url| ==> url[i] != '?' && url[i] != '#'
  }

  /** The text before the first `#`. */
  function UpToHash(s: string): (r: string)
    ensures |r| <= |s| && r == s[..|r|]
  {
    if s == [] || s[0] == '#' then "" else [s[0]] + UpToHash(s[1..])
  }

  /**
   * The query of a URL: the text after its first `?` and before the next `#`, or "" when a
   * `#` or the end comes first. `location.search` is this text behind a `?`, which
   * URLSearchParams removes again.
   */
  function QueryOf(url: string): string
  {
    if url == [] || url[0] == '#' then ""
    else if url[0] == '?' then UpToHash(url[1..])
    else QueryOf(url[1..])
  }

  /** The pieces of s between the separators, in order. */
  function Split(s: string, sep: char): (parts: seq<string>)
    ensures |parts| >= 1
  {
    if s == [] then [""]
    else if s[0] == sep then [""] + Split(s[1..], sep)
    else
      var rest := Split(s[1..], sep);
      [[s[0]] + rest[0]] + rest[1..]
  }

  /** The text before the first c (all of s when there is none) and the text after it. */
  function BreakAt(s: string, c: char): (r: (string, string))
    ensures |r.0| <= |s|
  {
    if s == [] then ("", "")
    else if s[0] == c then ("", s[1..])
    else
      var r := BreakAt(s[1..], c);
      ([s[0]] + r.0, r.1)
  }

  datatype Param = Param(name: string, value: string)

  /** Each non-empty piece becomes a pair split at its first `=`, both halves decoded. */
  function Pairs(pieces: seq<string>): seq<Param>
  {
    if pieces == [] then []
    else if pieces[0] == "" then Pairs(pieces[1..])
    else
      var r := BreakAt(pieces[0], '=');
      [Param(Uri.FormUrlDecode(r.0), Uri.FormUrlDecode(r.1))] + Pairs(pieces[1..])
  }

  /** The application/x-www-form-urlencoded parser. */
  function Parse(query: string): seq<Param>
  {
    Pairs(Split(query, '&'))
  }

  /** URLSearchParams.get: the value of the first pair named `name`, or null. */
  function Get(params: seq<Param>, name: string): (r: Option<string>)
    ensures r.Some? <==> exists i :: 0 <= i < |params| && params[i].name == name
    ensures r.Some? ==> exists i :: 0 <= i < |params| && params[i].name == name && params[i].value == r.value
                                     && forall j :: 0 <= j < i ==> params[j].name != name
  {
    if params == [] then None
    else if params[0].name == name then Some(params[0].value)
    else
      var r := Get(params[1..], name);
      assert forall i :: 1 <= i < |params| ==> params[i] == params[1..][i - 1];
      r
  }

  /** `new URLSearchParams(location.search).get(name)` on the page at `url`. */
  function SearchParam(url: string, name: string): Option<string>
  {
    Get(Parse(QueryOf(url)), name)
  }

  /** A page URL has no query, so it carries no value of any name. */
  lemma {:induction false} PageURLHasNoParam(url: string, name: string)
    requires IsPageURL(url)
    ensures SearchParam(url, name) == None
  {
    PageURLQuery(url, "");
    assert url + "" == url;
  }

  /** The query of a page URL followed by `?` and t is t up to its first `#`. */
  lemma {:induction false} PageURLQuery(url: string, t: string)
    requires IsPageURL(url)
    ensures QueryOf(url + t) == (if t != [] && t[0] == '?' then UpToHash(t[1..]) else QueryOf(t))
  {
    if url != [] {
      assert (url + t)[0] == url[0];
      assert (url + t)[1..] == url[1..] + t;
      PageURLQuery(url[1..], t);
    } else {
      assert url + t == t;
    }
  }

  lemma {:induction false} UpToHashNoHash(s: string)
    requires forall i :: 0 <= i < |s| ==> s[i] != '#'
    ensures UpToHash(s) == s
  {
    if s != [] {
      UpToHashNoHash(s[1..]);
      assert [s[0]] + s[1..] == s;
    }
  }

  /** A piece before a separator splits off first. */
  lemma {:induction false} SplitAfter(a: string, sep: char, b: string)
    requires forall i :: 0 <= i < |a| ==> a[i] != sep
    ensures Split(a + [sep] + b, sep) == [a] + Split(b, sep)
  {
    if a == [] {
      assert a + [sep] + b == [sep] + b;
      assert ([sep] + b)[1..] == b;
    } else {
      assert (a + [sep] + b)[0] == a[0];
      assert (a + [sep] + b)[1..] == a[1..] + [sep] + b;
      SplitAfter(a[1..], sep, b);
      assert [a[0]] + a[1..] == a;
    }
  }

  /** Text without the separator is a single piece. */
  lemma {:induction false} SplitNone(s: string, sep: char)
    requires forall i :: 0 <= i < |s| ==> s[i] != sep
    ensures Split(s, sep) == [s]
  {
    if s != [] {
      SplitNone(s[1..], sep);
      assert [s[0]] + s[1..] == s;
    }
  }

  /**
   * The query of the share link the page builds: the pairs `v=1` and `d=` the form
   * serialization of the code parse back into `v` with value "1" and `d` with the code.
   */
  lemma ShareQuery(code: string)
    requires Uri.IsAscii(code)
    ensures Parse("v=1&d=" + Uri.FormUrlEncode(code)) == [Param("v", "1"), Param("d", code)]
  {
    var e := Uri.FormUrlEncode(code);
    Uri.FormUrlEncodeAlphabet(code);
    var dPiece := "d=" + e;
    assert forall i :: 0 <= i < |dPiece| ==> dPiece[i] != '&' by {
      forall i | 0 <= i < |dPiece| ensures dPiece[i] != '&' {
        if i >= 2 { assert dPiece[i] == e[i - 2]; }
      }
    }
    assert "v=1&d=" + e == "v=1" + ['&'] + dPiece;
    SplitAfter("v=1", '&', dPiece);
    SplitNone(dPiece, '&');
    assert BreakAt("=1", '=') == ("", "1");
    assert "v=1"[0] == 'v' && "v=1"[1..] == "=1" && ['v'] + "" == "v";
    assert BreakAt("v=1", '=') == ("v", "1");
    assert dPiece[0] == 'd' && dPiece[1..] == "=" + e && ("=" + e)[1..] == e;
    assert BreakAt("=" + e, '=') == ("", e) && ['d'] + "" == "d";
    assert BreakAt(dPiece, '=') == ("d", e);
    Uri.FormUrlDecodeEncode(code);
    assert Uri.FormUrlDecode("v") == "v" && Uri.FormUrlDecode("1") == "1" && Uri.FormUrlDecode("d") == "d";
    var pieces := Split("v=1&d=" + e, '&');
    assert pieces == ["v=1", dPiece];
    assert pieces[1..] == [dPiece] && [dPiece][1..] == [];
    assert Pairs([dPiece]) == [Param("d", code)];
    assert Pairs(pieces) == [Param("v", "1")] + Pairs([dPiece]);
  }

  /** The page opened at a share link reads the code back as its `d` value. */
  lemma ShareLinkParam(url: string, code: string)
    requires IsPageURL(url) && Uri.IsAscii(code)
    ensures SearchParam(url + "?v=1&d=" + Uri.FormUrlEncode(code), "d") == Some(code)
  {
    var q := "v=1&d=" + Uri.FormUrlEncode(code);
    Uri.FormUrlEncodeAlphabet(code);
    assert forall i :: 0 <= i < |q| ==> q[i] != '#' by {
      forall i | 0 <= i < |q| ensures q[i] != '#' {
        if i >= 6 { assert q[i] == Uri.FormUrlEncode(code)[i - 6]; }
      }
    }
    assert url + "?v=1&d=" + Uri.FormUrlEncode(code) == url + ("?" + q);
    PageURLQuery(url, "?" + q);
    assert ("?" + q)[1..] == q;
    UpToHashNoHash(q);
    ShareQuery(code);
    assert Get([Param("v", "1"), Param("d", code)], "d") == Some(code) by {
      assert [Param("v", "1"), Param("d", code)][1..] == [Param("d", code)];
    }
  }
}
