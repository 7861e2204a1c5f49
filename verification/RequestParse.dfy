/**
 * http_parse_request and the parsing half of http_post_request (httpd.c), with the request
 * list, HTTP/0.9 and POST compiled in: what the server makes of the request bytes that it has
 * received so far. lwip_strnstr, which is not part of this repository, looks for a text in a
 * buffer and stops at the first zero byte.
 */
module HttpRequest {
  import opened Bytes
  import opened Prelude

  const MIN_REQ_LEN := 7
  /** "GET " */
  const GET: seq<byte> := [0x47, 0x45, 0x54, 0x20]
  /** "POST " */
  const POST: seq<byte> := [0x50, 0x4F, 0x53, 0x54, 0x20]
  const SP: byte := 0x20
  const CR: byte := 0x0D

  /** Waiting: the bytes say nothing yet. PostIncomplete: a POST whose headers are not all
      there. Bad and Unsupported are answered with the pages 400 and 501. */
  datatype Verdict =
    | Waiting
    | Bad
    | Unsupported
    | Get(uri: seq<byte>, is09: bool)
    | PostIncomplete
    | Post(uri: seq<byte>, headers: seq<byte>, contentLength: nat, headLength: nat)

  function StrNStr(s: seq<byte>, pat: seq<byte>): (r: Option<nat>)
    ensures r.Some? ==> At(s, pat, r.value)
  {
    CStringIsPrefix(s);
    var r := Find(CString(s), pat, 0);
    assert r.Some? ==> CString(s)[r.value..r.value + |pat|] == s[r.value..r.value + |pat|];
    r
  }

  lemma {:induction false} CStringIsPrefix(s: seq<byte>)
    ensures CString(s) <= s && 0 !in CString(s) && (0 !in s ==> CString(s) == s)
  {
    if s != [] && s[0] != 0 {
      CStringIsPrefix(s[1..]);
      assert s == [s[0]] + s[1..];
    }
  }

  /** atoi's result is clamped to a C int. */
  function ToInt(x: int): (r: int)
    ensures -0x8000_0000 <= r <= 0x7FFF_FFFF && (r == x || (x < r && x < -0x8000_0000) || (r < x && x > 0x7FFF_FFFF))
  {
    if x < -0x8000_0000 then -0x8000_0000 else if x > 0x7FFF_FFFF then 0x7FFF_FFFF else x
  }

  /** The length that stands at the start of `text`: its CRLF must lie in the first ten bytes. */
  function PostLength(text: seq<byte>): (r: Option<nat>) {
    if StrNStr(text[..Min(10, |text|)], CRLF) == None then None else
      var len := ToInt(Atoi(CString(text)));
      if len < 0 || (len == 0 && (text[0] != 0x30 || text[1] != CR)) then None else Some(len)
  }

  /** http_post_request up to the call of httpd_post_begin; the headers start at `from`. */
  function ParsePost(data: seq<byte>, uri: seq<byte>, from: nat): (v: Verdict)
    requires from <= |data|
    ensures v.Post? ==> from + 4 <= v.headLength <= |data| && At(data, CRLF_CRLF, v.headLength - 4)
    ensures v.Post? ==> v.uri == uri && v.headers == data[from..v.headLength - 4] && v.contentLength < 0x8000_0000
  {
    var tail := data[from..];
    var blank := StrNStr(tail, CRLF_CRLF);
    if blank == None then PostIncomplete else
      assert data[from + blank.value..from + blank.value + 4] == tail[blank.value..blank.value + 4];
      var headers := tail[..blank.value];
      var name := StrNStr(headers, CONTENT_LENGTH);
      if name == None then Bad else
        var len := PostLength(tail[name.value + 16..]);
        if len == None then Bad else Post(uri, headers, len.value, from + blank.value + 4)
  }

  function Parse(data: seq<byte>): (v: Verdict)
    ensures v.Post? ==> 4 <= v.headLength <= |data| && At(data, CRLF_CRLF, v.headLength - 4)
    ensures v.Post? ==> v.contentLength < 0x8000_0000
  {
    if |data| < MIN_REQ_LEN || StrNStr(data, CRLF) == None then Waiting
    else if !(GET <= data) && !(POST <= data) then Unsupported else
      var post := !(GET <= data);
      var start := if post then 5 else 4;
      var rest := data[start..];
      var sp2 := StrNStr(rest, SPACE);
      if sp2 == None && post then Bad else
        var end := if sp2.Some? then sp2 else StrNStr(rest, CRLF);
        if end == None || StrNStr(data, CRLF_CRLF) == None then Waiting
        else if post then ParsePost(data, rest[..end.value], start + end.value + 1)
        else Get(rest[..end.value], sp2 == None)
  }

  lemma StrNStrIsFind(s: seq<byte>, pat: seq<byte>)
    requires 0 !in s
    ensures StrNStr(s, pat) == Find(s, pat, 0)
  {
    CStringIsPrefix(s);
  }

  lemma FindSpace(s: seq<byte>, x: seq<byte>, t: seq<byte>)
    requires SP !in x && s == x + SPACE + t
    ensures Find(s, SPACE, 0) == Some(|x|)
  {
    forall j | 0 <= j < |x| ensures !At(s, SPACE, j) {
      assert s[j] == x[j];
      NotAt(s, SPACE, j);
    }
    assert s[|x|..|x| + 1] == SPACE;
    FindIs(s, SPACE, 0, |x|);
  }

  lemma SpaceFound(s: seq<byte>)
    ensures Find(s, SPACE, 0) == None <==> SP !in s
  {
    if SP in s {
      var k :| 0 <= k < |s| && s[k] == SP;
      assert s[k..k + 1] == SPACE;
      assert At(s, SPACE, k);
    } else {
      forall k: nat ensures !At(s, SPACE, k) {
        NotAt(s, SPACE, k);
      }
    }
  }

  /** An end of line in a GET request stands behind the method. */
  lemma LineBehindMethod(d: seq<byte>, k: nat)
    requires GET <= d && At(d, CRLF, k)
    ensures k >= 4 && At(d[4..], CRLF, k - 4)
  {
    assert d[k] == d[k..k + 2][0] && d[..4] == GET;
    assert d[k..k + 2] == d[4..][k - 4..k - 2];
  }

  lemma LineOfGet(d: seq<byte>)
    requires GET <= d && Find(d, CRLF, 0).Some?
    ensures Find(d[4..], CRLF, 0).Some?
  {
    LineBehindMethod(d, Find(d, CRLF, 0).value);
  }

  lemma BlankIsLine(d: seq<byte>, k: nat)
    requires At(d, CRLF_CRLF, k)
    ensures At(d, CRLF, k)
  {
    assert d[k..k + 2] == d[k..k + 4][..2] == CRLF;
  }

  /** Where a blank line is, there is an end of line. */
  lemma LineBeforeBlank(d: seq<byte>)
    requires GET <= d && Find(d, CRLF_CRLF, 0).Some?
    ensures Find(d, CRLF, 0).Some? && |d| >= 8
  {
    var k := Find(d, CRLF_CRLF, 0).value;
    BlankIsLine(d, k);
    LineBehindMethod(d, k);
  }

  /** What a GET request without zero bytes asks for once its blank line is there. */
  function Asked(rest: seq<byte>): (v: Verdict)
    requires Find(rest, CRLF, 0).Some?
  {
    var sp2 := Find(rest, SPACE, 0);
    if sp2.Some? then Get(rest[..sp2.value], false) else Get(rest[..Find(rest, CRLF, 0).value], true)
  }

  /** A GET request is not acted on before its blank line has come, and then it is. */
  lemma GetWaitsForBlankLine(d: seq<byte>)
    requires GET <= d && 0 !in d
    ensures Find(d, CRLF_CRLF, 0) == None ==> Parse(d) == Waiting
    ensures Find(d, CRLF_CRLF, 0).Some? ==> Find(d[4..], CRLF, 0).Some? && Parse(d) == Asked(d[4..])
  {
    hide StrNStr, Find, At, ParsePost;
    StrNStrIsFind(d, CRLF);
    StrNStrIsFind(d, CRLF_CRLF);
    StrNStrIsFind(d[4..], SPACE);
    StrNStrIsFind(d[4..], CRLF);
    if Find(d, CRLF_CRLF, 0).Some? {
      LineBeforeBlank(d);
    }
    if Find(d, CRLF, 0).Some? {
      LineOfGet(d);
    }
  }

  lemma SpaceStays(rest: seq<byte>, t: seq<byte>)
    requires Find(rest, CRLF, 0).Some?
    ensures Find(rest + t, CRLF, 0).Some?
    ensures Asked(rest + t) == Asked(rest) <==> SP in rest || SP !in t
  {
    FindStable(rest, t, CRLF, 0);
    SpaceFound(rest);
    SpaceFound(rest + t);
    if SP in rest {
      FindStable(rest, t, SPACE, 0);
    }
    hide Find, At;
    var end := Find(rest, CRLF, 0).value;
    assert (rest + t)[..end] == rest[..end];
    if SP in rest {
      var sp := Find(rest, SPACE, 0).value;
      assert (rest + t)[..sp] == rest[..sp];
    }
  }

  /** What follows the blank line can change what has been asked for, in exactly one case:
      there was no second space so far, and the new bytes have one. */
  lemma GetSettled(d: seq<byte>, t: seq<byte>)
    requires GET <= d && 0 !in d && 0 !in t && Find(d, CRLF_CRLF, 0).Some?
    ensures Parse(d + t) == Parse(d) <==> SP in d[4..] || SP !in t
  {
    hide Find, At, Parse, Asked;
    GetWaitsForBlankLine(d);
    FindStable(d, t, CRLF_CRLF, 0);
    GetWaitsForBlankLine(d + t);
    assert (d + t)[4..] == d[4..] + t;
    SpaceStays(d[4..], t);
  }

  /** A request line with both spaces (section 3.1.1 of RFC 7230): whatever headers follow,
      and however much of them is there, the URI is the one between the spaces. */
  lemma GetLineParsed(uri: seq<byte>, more: seq<byte>)
    requires SP !in uri && 0 !in uri && 0 !in more
    requires Find(GET + uri + SPACE + more, CRLF_CRLF, 0).Some?
    ensures Parse(GET + uri + SPACE + more) == Get(uri, false)
  {
    hide Parse, Find, At;
    var d := GET + uri + SPACE + more;
    GetWaitsForBlankLine(d);
    var rest := d[4..];
    assert rest == uri + SPACE + more;
    FindSpace(rest, uri, more);
    assert rest[..|uri|] == uri;
  }

  /** Without a second space anywhere, the request is one of HTTP/0.9, for what stands ahead of
      the end of the line. */
  lemma ShortFormParsed(uri: seq<byte>, more: seq<byte>)
    requires SP !in uri && SP !in more && CR !in uri && 0 !in uri && 0 !in more
    requires Find(GET + uri + CRLF + more, CRLF_CRLF, 0).Some?
    ensures Parse(GET + uri + CRLF + more) == Get(uri, true)
  {
    hide Parse, At;
    var d := GET + uri + CRLF + more;
    GetWaitsForBlankLine(d);
    var rest := d[4..];
    assert rest == uri + CRLF + more;
    SpaceFound(rest);
    LineAfter(uri, more);
    hide Find;
    assert rest[..|uri|] == uri;
  }

  lemma LineAfter(uri: seq<byte>, more: seq<byte>)
    requires CR !in uri
    ensures Find(uri + CRLF + more, CRLF, 0) == Some(|uri|)
  {
    var s := uri + CRLF + more;
    forall j | 0 <= j < |uri| ensures !At(s, CRLF, j) {
      assert s[j] == uri[j];
      NotAt(s, CRLF, j);
    }
    assert s[|uri|..|uri| + 2] == CRLF;
    FindIs(s, CRLF, 0, |uri|);
  }

  lemma Methods()
    ensures GET == Ascii("GET ") && POST == Ascii("POST ")
  {
  }

  /** HTTP/0.9 requests do depend on what comes in the same segment. */
  lemma ShortFormUnsettled()
    ensures Parse(GET + [0x2F] + CRLF_CRLF) != Parse(GET + [0x2F] + CRLF_CRLF + SPACE)
  {
    var d := GET + [0x2F] + CRLF_CRLF;
    assert d[5..9] == CRLF_CRLF;
    assert At(d, CRLF_CRLF, 5);
    GetSettled(d, SPACE) by {
      hide Parse;
    }
  }

  /** A line has come in. */
  predicate Line(d: seq<byte>) {
    |d| >= 7 && Find(d, CRLF, 0).Some?
  }

  /** A POST request has a second space, and behind it a blank line. */
  predicate PostLineThere(d: seq<byte>)
    requires POST <= d
  {
    var sp := Find(d[5..], SPACE, 0);
    sp.Some? && Find(d[5..][sp.value + 1..], CRLF_CRLF, 0).Some?
  }

  /** Which requests are refused, and which wait: the method is looked at once a line is there,
      a POST line without a second space is bad at once, and a blank line ahead of that space
      does not end the headers. */
  lemma Verdicts(d: seq<byte>)
    requires 0 !in d
    ensures Parse(d) == Unsupported <==> Line(d) && !(GET <= d) && !(POST <= d)
    ensures GET <= d ==> (Parse(d).Get? <==> Find(d, CRLF_CRLF, 0).Some?)
    ensures POST <= d && (!Line(d) || SP !in d[5..]) ==> Parse(d) == if Line(d) then Bad else Waiting
    ensures POST <= d && Line(d) && SP in d[5..] && !PostLineThere(d) ==>
              Parse(d) == if Find(d, CRLF_CRLF, 0).Some? then PostIncomplete else Waiting
    ensures POST <= d && Parse(d).Post? ==> Line(d) && SP in d[5..] && PostLineThere(d)
  {
    StrNStrIsFind(d, CRLF);
    StrNStrIsFind(d, CRLF_CRLF);
    if GET <= d {
      GetWaitsForBlankLine(d);
    } else if POST <= d {
      StrNStrIsFind(d[5..], SPACE);
      SpaceFound(d[5..]);
      var sp := Find(d[5..], SPACE, 0);
      if sp.Some? {
        StrNStrIsFind(d[5..][sp.value + 1..], CRLF_CRLF);
        assert d[5 + sp.value + 1..] == d[5..][sp.value + 1..];
      }
    }
    hide StrNStr, Find, At, PostLength;
  }

  /** A method that is not supported stays so, whatever follows. */
  lemma UnsupportedStays(d: seq<byte>, t: seq<byte>)
    requires 0 !in d && 0 !in t && Parse(d) == Unsupported
    ensures Parse(d + t) == Unsupported
  {
    Verdicts(d);
    Verdicts(d + t);
    FindStable(d, t, CRLF, 0);
    assert (d + t)[..4] == d[..4] && (d + t)[..5] == d[..5];
    hide Parse, Find;
  }
}
