/**
 * The head of a POST request: when it is complete, whatever the segments, the application is
 * offered the URI, the headers and the length that stand in it.
 */
module HttpPostHead {
  import opened Bytes
  import opened HttpRequest
  import opened Prelude

  lemma FoundInText(s: seq<byte>, t: seq<byte>, pat: seq<byte>)
    requires 0 !in s && Find(s, pat, 0).Some?
    ensures StrNStr(s + t, pat) == Find(s, pat, 0)
  {
    CStringBehind(s, t);
    FindStable(s, CString(t), pat, 0);
  }

  /** The ten bytes in which the end of the line must lie leave room for eight digits. A zero
      must be a single one. */
  predicate LengthAccepted(digits: seq<byte>) {
    |digits| <= 8 && (Number(digits, 0) == 0 ==> |digits| == 1)
  }

  lemma NoLineInDigits(s: seq<byte>, n: nat)
    requires n <= |s| && forall k :: 0 <= k < n ==> IsDigit(s[k])
    ensures forall j :: 0 <= j < n ==> !At(s, CRLF, j)
  {
    forall j | 0 <= j < n ensures !At(s, CRLF, j) {
      NotAt(s, CRLF, j);
    }
  }

  /** Exactly which Content-Length values are taken. */
  lemma PostLengthOfDigits(digits: seq<byte>, rest: seq<byte>)
    requires AllDigits(digits)
    ensures PostLength(digits + CRLF + rest) == if LengthAccepted(digits) then Some(Number(digits, 0)) else None
  {
    var text := digits + CRLF + rest;
    var window := text[..Min(10, |text|)];
    WindowHasLine(digits, rest);
    AtoiOfDigits(digits, rest);
    hide StrNStr, Number, CString, Atoi, At, Find;
    if |digits| <= 8 {
      SmallNumber(digits);
      assert text[0] == digits[0];
      if |digits| > 1 { assert text[1] == digits[1]; } else { assert text[1] == CRLF[0]; OneDigit(digits); }
    }
  }

  lemma OneDigit(digits: seq<byte>)
    requires AllDigits(digits) && |digits| == 1
    ensures Number(digits, 0) == digits[0] - 0x30
  {
    assert Number(digits[1..], digits[0] - 0x30) == digits[0] - 0x30;
  }

  lemma SmallNumber(digits: seq<byte>)
    requires AllDigits(digits) && |digits| <= 8
    ensures Number(digits, 0) < 100_000_000
  {
    NumberOfDigits(digits, [], 0);
    assert digits + [] == digits;
    PowGrows(|digits|, 8);
    assert Pow10(8) == 100_000_000 by { assert Pow10(4) == 10_000; }
  }

  lemma {:induction false} PowGrows(n: nat, m: nat)
    requires n <= m
    ensures Pow10(n) <= Pow10(m)
  {
    if n < m {
      PowGrows(n, m - 1);
    }
  }

  lemma AtoiOfDigits(digits: seq<byte>, rest: seq<byte>)
    requires AllDigits(digits)
    ensures Atoi(CString(digits + CRLF + rest)) == Number(digits, 0)
  {
    var tail := CRLF + CString(rest);
    CStringBehind(digits + CRLF, rest);
    assert digits + CRLF + CString(rest) == digits + tail;
    assert (digits + tail)[0] == digits[0];
    NumberOfDigits(digits, tail, 0);
  }

  lemma WindowHasLine(digits: seq<byte>, rest: seq<byte>)
    requires AllDigits(digits)
    ensures var text := digits + CRLF + rest; StrNStr(text[..Min(10, |text|)], CRLF).Some? <==> |digits| <= 8
  {
    var text := digits + CRLF + rest;
    var window := text[..Min(10, |text|)];
    if |digits| <= 8 {
      var s := digits + CRLF;
      assert window == s + rest[..Min(10, |text|) - |s|];
      NoLineInDigits(s, |digits|);
      assert s[|digits|..|digits| + 2] == CRLF;
      FindIs(s, CRLF, 0, |digits|);
      FoundInText(s, rest[..Min(10, |text|) - |s|], CRLF);
    } else {
      CStringIsPrefix(window);
      NoLineInDigits(window, 9);
    }
  }

  /** The head of a POST request: a request line with both spaces, and headers among which
      "Content-Length: " first stands at `k`, followed by `digits` and the end of the line. */
  ghost predicate PostHead(uri: seq<byte>, headers: seq<byte>, k: nat, digits: seq<byte>) {
    && SP !in uri && CR !in uri && 0 !in uri && 0 !in headers
    && Find(headers + CRLF_CRLF, CRLF_CRLF, 0) == Some(|headers|)
    && Find(headers, CONTENT_LENGTH, 0) == Some(k)
    && AllDigits(digits) && k + 16 + |digits| <= |headers|
    && headers[k + 16..k + 16 + |digits|] == digits
    && At(headers + CRLF_CRLF, CRLF, k + 16 + |digits|)
  }

  function HeadText(uri: seq<byte>, headers: seq<byte>): seq<byte> {
    POST + uri + SPACE + headers + CRLF_CRLF
  }

  lemma LengthText(uri: seq<byte>, headers: seq<byte>, k: nat, digits: seq<byte>, body: seq<byte>)
    requires PostHead(uri, headers, k, digits)
    ensures exists rest :: (headers + CRLF_CRLF + body)[k + 16..] == digits + CRLF + rest
  {
    var tail, n := headers + CRLF_CRLF + body, k + 16 + |digits|;
    assert tail[k + 16..n] == digits;
    assert tail[n..n + 2] == (headers + CRLF_CRLF)[n..n + 2];
    assert tail[k + 16..] == digits + CRLF + tail[n + 2..];
  }

  lemma HeadersRead(uri: seq<byte>, headers: seq<byte>, k: nat, digits: seq<byte>, data: seq<byte>, from: nat,
      body: seq<byte>)
    requires PostHead(uri, headers, k, digits) && from <= |data| && data[from..] == headers + CRLF_CRLF + body
    ensures ParsePost(data, uri, from) ==
      if LengthAccepted(digits) then Post(uri, headers, Number(digits, 0), from + |headers| + 4) else Bad
  {
    var tail := headers + CRLF_CRLF + body;
    FoundInText(headers + CRLF_CRLF, body, CRLF_CRLF);
    assert tail[..|headers|] == headers;
    StrNStrIsFind(headers, CONTENT_LENGTH);
    LengthText(uri, headers, k, digits, body);
    var rest :| tail[k + 16..] == digits + CRLF + rest;
    PostLengthOfDigits(digits, rest);
    hide StrNStr, PostLength, LengthAccepted, Number, Find;
  }

  lemma BlankBehind(uri: seq<byte>, headers: seq<byte>)
    requires CR !in uri && Find(headers + CRLF_CRLF, CRLF_CRLF, 0) == Some(|headers|)
    ensures Find(HeadText(uri, headers), CRLF_CRLF, 0) == Some(|uri| + 6 + |headers|)
  {
    hide *;
    HeadParts(uri, headers);
    FoundBehind(POST + uri + SPACE, headers + CRLF_CRLF, |headers|);
  }

  lemma HeadParts(uri: seq<byte>, headers: seq<byte>)
    ensures HeadText(uri, headers) == POST + uri + SPACE + (headers + CRLF_CRLF)
    ensures |POST + uri + SPACE| == |uri| + 6 && (CR !in uri ==> CR !in POST + uri + SPACE)
    ensures 0 !in uri && 0 !in headers ==> 0 !in HeadText(uri, headers)
    ensures |HeadText(uri, headers)| >= 10
  {
    Regroup(POST + uri + SPACE, headers, CRLF_CRLF);
    if CR !in uri {
      forall j | 0 <= j < |POST + uri + SPACE| ensures (POST + uri + SPACE)[j] != CR {
        NoReturnBefore(uri, j);
      }
    }
  }

  lemma FoundBehind(start: seq<byte>, tail: seq<byte>, n: nat)
    requires CR !in start && Find(tail, CRLF_CRLF, 0) == Some(n)
    ensures Find(start + tail, CRLF_CRLF, 0) == Some(|start| + n)
  {
    var all := start + tail;
    forall j | 0 <= j < |start| + n ensures !At(all, CRLF_CRLF, j) {
      if j < |start| {
        assert all[j] == start[j];
        NotAt(all, CRLF_CRLF, j);
      } else {
        AtBehind(start, tail, CRLF_CRLF, j - |start|);
      }
    }
    AtBehind(start, tail, CRLF_CRLF, n);
    hide Find;
    FindIs(all, CRLF_CRLF, 0, |start| + n);
  }

  /** In the text before the headers there is no carriage return. */
  lemma NoReturnBefore(uri: seq<byte>, j: nat)
    requires CR !in uri && j < |POST + uri + SPACE|
    ensures (POST + uri + SPACE)[j] != CR
  {
  }

  /** The blank line of the head is the one behind the headers. */
  lemma BlankOfHead(uri: seq<byte>, headers: seq<byte>, k: nat, digits: seq<byte>)
    requires PostHead(uri, headers, k, digits)
    ensures Find(HeadText(uri, headers), CRLF_CRLF, 0) == Some(|uri| + 6 + |headers|)
  {
    BlankBehind(uri, headers);
  }

  lemma AtBehind(x: seq<byte>, s: seq<byte>, pat: seq<byte>, j: nat)
    ensures At(x + s, pat, |x| + j) == At(s, pat, j)
  {
    if j + |pat| <= |s| {
      assert (x + s)[|x| + j..|x| + j + |pat|] == s[j..j + |pat|];
    }
  }

  lemma IsPost(uri: seq<byte>, t: seq<byte>)
    ensures var d := POST + uri + t; POST <= d && !(GET <= d) && d[5..] == uri + t
  {
    var d := POST + uri + t;
    assert d[0] == POST[0] != GET[0];
  }

  lemma Pieces(p: seq<byte>, u: seq<byte>, s: seq<byte>, h: seq<byte>, b: seq<byte>)
    ensures p + u + s + h + b == p + (u + s + h + b) == p + u + (s + h + b)
    ensures (p + u + s + h + b)[|p|..] == u + s + h + b
    ensures (p + u + s + h + b)[|p| + |u| + |s|..] == h + b
    ensures (u + s + h + b)[..|u|] == u
  {
    assert p + u + s + h + b == (p + u + s) + (h + b);
  }

  lemma SpaceOfHead(uri: seq<byte>, tail: seq<byte>, body: seq<byte>)
    requires SP !in uri && 0 !in uri && 0 !in tail
    ensures StrNStr(uri + SPACE + tail + body, SPACE) == Some(|uri|)
  {
    FindSpace(uri + SPACE + tail, uri, tail);
    FoundInText(uri + SPACE + tail, body, SPACE);
  }

  lemma LinesOfHead(uri: seq<byte>, headers: seq<byte>, k: nat, digits: seq<byte>, body: seq<byte>)
    requires PostHead(uri, headers, k, digits)
    ensures var d := HeadText(uri, headers) + body; StrNStr(d, CRLF).Some? && StrNStr(d, CRLF_CRLF).Some?
  {
    var head := HeadText(uri, headers);
    BlankOfHead(uri, headers, k, digits);
    FoundInText(head, body, CRLF_CRLF);
    BlankIsLine(head, |uri| + 6 + |headers|);
    FoundInText(head, body, CRLF);
  }

  /** A complete head is taken as it stands, and how much of the body came with it makes no
      difference: the application is offered the URI, the headers and the length, or the
      request is bad, which is the case for every length that is not accepted. */
  lemma PostParsed(uri: seq<byte>, headers: seq<byte>, k: nat, digits: seq<byte>, body: seq<byte>)
    requires PostHead(uri, headers, k, digits)
    ensures Parse(HeadText(uri, headers) + body) ==
      if LengthAccepted(digits) then Post(uri, headers, Number(digits, 0), |HeadText(uri, headers)|) else Bad
  {
    hide StrNStr, ParsePost, LengthAccepted, Number, Find, At;
    var d, tail := HeadText(uri, headers) + body, headers + CRLF_CRLF;
    LinesOfHead(uri, headers, k, digits, body);
    assert HeadText(uri, headers) == POST + uri + SPACE + tail;
    Pieces(POST, uri, SPACE, tail, body);
    IsPost(uri, SPACE + tail + body);
    SpaceOfHead(uri, tail, body);
    HeadersRead(uri, headers, k, digits, d, 6 + |uri|, body);
    hide PostHead;
  }

  /** In plain numbers: a length written without leading zeros is taken, as the number it is, up
      to eight digits. */
  lemma PostOfLength(uri: seq<byte>, headers: seq<byte>, k: nat, n: nat, body: seq<byte>)
    requires PostHead(uri, headers, k, Digits(n))
    ensures Parse(HeadText(uri, headers) + body) ==
      if n < 100_000_000 then Post(uri, headers, n, |HeadText(uri, headers)|) else Bad
  {
    PostParsed(uri, headers, k, Digits(n), body);
    DigitsRead(n);
    DigitsCount(n, 8);
    assert Pow10(8) == 100_000_000 by { assert Pow10(4) == 10_000; }
    if n == 0 {
      assert |Digits(0)| == 1;
    }
    hide Parse, PostHead, HeadText;
  }

  /** A complete head without a Content-Length is bad. */
  lemma PostWithoutLength(uri: seq<byte>, headers: seq<byte>, body: seq<byte>)
    requires SP !in uri && CR !in uri && 0 !in uri && 0 !in headers && Find(headers, CONTENT_LENGTH, 0) == None
    requires Find(headers + CRLF_CRLF, CRLF_CRLF, 0) == Some(|headers|)
    ensures Parse(HeadText(uri, headers) + body) == Bad
  {
    hide *;
    var d, tail, head := HeadText(uri, headers) + body, headers + CRLF_CRLF, HeadText(uri, headers);
    HeadParts(uri, headers);
    NoZero(headers);
    BlankBehind(uri, headers);
    FoundInText(head, body, CRLF_CRLF);
    LineFound(head, |uri| + 6 + |headers|);
    FoundInText(head, body, CRLF);
    Pieces(POST, uri, SPACE, tail, body);
    IsPost(uri, SPACE + tail + body);
    SpaceOfHead(uri, tail, body);
    NoLength(headers, body, d, uri, 6 + |uri|);
    BadOnce(d, uri);
  }

  lemma NoZero(headers: seq<byte>)
    requires 0 !in headers
    ensures 0 !in headers + CRLF_CRLF
  {
  }

  lemma LineFound(head: seq<byte>, k: nat)
    requires Find(head, CRLF_CRLF, 0) == Some(k)
    ensures Find(head, CRLF, 0).Some?
  {
    BlankIsLine(head, k);
  }

  lemma NoLength(headers: seq<byte>, body: seq<byte>, data: seq<byte>, uri: seq<byte>, from: nat)
    requires 0 !in headers && Find(headers, CONTENT_LENGTH, 0) == None && from <= |data|
    requires Find(headers + CRLF_CRLF, CRLF_CRLF, 0) == Some(|headers|) && data[from..] == headers + CRLF_CRLF + body
    ensures ParsePost(data, uri, from) == Bad
  {
    hide Find, StrNStr, PostLength, At, CString;
    NoZero(headers);
    FoundInText(headers + CRLF_CRLF, body, CRLF_CRLF);
    StrNStrIsFind(headers, CONTENT_LENGTH);
    var tail := headers + CRLF_CRLF + body;
    assert tail[..|headers|] == headers;
  }

  /** With line, blank line and second space there, a POST is what is made of its headers. */
  lemma BadOnce(d: seq<byte>, uri: seq<byte>)
    requires POST <= d && !(GET <= d) && |d| >= 7 && StrNStr(d, CRLF).Some? && StrNStr(d, CRLF_CRLF).Some?
    requires StrNStr(d[5..], SPACE) == Some(|uri|) && |uri| <= |d[5..]| && d[5..][..|uri|] == uri
    requires ParsePost(d, uri, 6 + |uri|) == Bad
    ensures Parse(d) == Bad
  {
    hide StrNStr, ParsePost;
  }

  /** So is one whose length has a sign, or does not start with a number at all. */
  lemma NotALength(text: seq<byte>)
    requires text != [] && !IsDigit(text[0]) && text[0] != 0x20 && !(0x09 <= text[0] <= 0x0D) && text[0] != 0x2B
    ensures PostLength(text) == None
  {
    hide StrNStr;
    if text[0] == 0 {
      assert CString(text) == [];
    } else {
      assert CString(text) == [text[0]] + CString(text[1..]);
    }
  }

  /** Until then the server waits. */
  lemma PostWaits(uri: seq<byte>, headers: seq<byte>, k: nat, digits: seq<byte>, d: seq<byte>)
    requires PostHead(uri, headers, k, digits) && d < HeadText(uri, headers)
    ensures Parse(d) == Waiting
  {
    var head := HeadText(uri, headers);
    assert 0 !in head;
    StrNStrIsFind(d, CRLF_CRLF);
    StrNStrIsFind(d, CRLF);
    BlankOfHead(uri, headers, k, digits);
    if Find(d, CRLF_CRLF, 0).Some? {
      BlankTooEarly(d, head);
    }
    if |d| >= 7 && Find(d, CRLF, 0).Some? {
      LineBehindUri(uri, headers, d);
      StrNStrIsFind(d[5..], SPACE);
      SpaceFound(d[5..]);
      assert POST <= d && !(GET <= d) by { assert d[..5] == head[..5] == POST; assert d[0] == POST[0]; }
    }
    hide StrNStr, ParsePost, PostHead, Find, At;
  }

  lemma BlankTooEarly(d: seq<byte>, head: seq<byte>)
    requires d < head && Find(d, CRLF_CRLF, 0).Some?
    ensures Find(head, CRLF_CRLF, 0).Some? && Find(head, CRLF_CRLF, 0).value < |head| - 4
  {
    FindStable(d, head[|d|..], CRLF_CRLF, 0);
    assert d + head[|d|..] == head;
  }

  lemma LineBehindUri(uri: seq<byte>, headers: seq<byte>, d: seq<byte>)
    requires CR !in uri && d <= HeadText(uri, headers) && Find(d, CRLF, 0).Some?
    ensures |d| > 6 + |uri| && SP in d[5..]
  {
    var j, tail := Find(d, CRLF, 0).value, headers + CRLF_CRLF;
    Regroup(POST + uri + SPACE, headers, CRLF_CRLF);
    ReturnAt(d, j);
    hide Find, At;
    ReturnBehind(uri, tail, j);
    SpaceBehindUri(uri, tail, d);
  }

  lemma Regroup(a: seq<byte>, b: seq<byte>, c: seq<byte>)
    ensures a + b + c == a + (b + c)
  {
  }

  lemma ReturnAt(d: seq<byte>, j: nat)
    requires At(d, CRLF, j)
    ensures j < |d| && d[j] == CR
  {
    assert d[j] == d[j..j + 2][0];
  }

  lemma SpaceBehindUri(uri: seq<byte>, tail: seq<byte>, d: seq<byte>)
    requires d <= POST + uri + SPACE + tail && |d| > 6 + |uri|
    ensures SP in d[5..]
  {
    assert d[5..][|uri|] == (POST + uri + SPACE + tail)[5 + |uri|] == SP;
  }

  lemma ReturnBehind(uri: seq<byte>, tail: seq<byte>, j: nat)
    requires CR !in uri && j < 6 + |uri| + |tail| && (POST + uri + SPACE + tail)[j] == CR
    ensures j >= 6 + |uri|
  {
    var start := POST + uri + SPACE;
    forall i: nat | i < |start| ensures (start + tail)[i] != CR {
      NoReturnBefore(uri, i);
    }
  }
}
