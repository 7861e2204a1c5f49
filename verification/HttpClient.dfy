/**
 * The response side of examples/LwipHttp/http_client.c: TCP delivers the response in segments
 * of any size, and the client collects them until the status line and the header block are
 * complete. A pbuf chain is its payload; pbuf lengths are 16-bit.
 */
module HttpClient {
  import opened Bytes
  import opened Prelude

  /** "HTTP/" */
  const HTTP_SLASH: seq<byte> := [0x48, 0x54, 0x54, 0x50, 0x2F]
  const LEN_INVALID: u32 := 0xFFFF_FFFF

  /** `c - '0'` in 16 bits. */
  function ToDigit(c: byte): u16 {
    ToU16(c as int - 0x30)
  }

  /** What a parser makes of the bytes so far. Overrun stands for a number that does not fit
      the parser's own buffer or an int, where the program's behaviour is undefined. */
  datatype Parsed<T> = NotYet | Overrun | Got(value: T)

  /** http_parse_response_status: version and status. The spaces are looked for in everything
      received, not just in the first line. */
  function ParseStatus(b: seq<byte>): (r: Parsed<(u16, u16)>) {
    var end1, space1 := Find(b, CRLF, 0), Find(b, SPACE, 0);
    if end1 == None || space1 == None || |b| < 8 || b[..5] != HTTP_SLASH || b[6] != 0x2E then NotYet else
      var version := ToU16(ToU16(ToDigit(b[5]) * 0x100) + ToDigit(b[7]));
      var space2 := Find(b, SPACE, space1.value + 1);
      var stop := if space2.Some? then space2.value else end1.value;
      if stop < space1.value + 1 || stop - space1.value - 1 > 9 then Overrun else
        var status := Atoi(b[space1.value + 1..stop]);
        if 0 < status <= 0xFFFF then Got((version, status)) else NotYet
  }

  /** The content length that http_wait_headers reads from all the bytes received. */
  function ContentLength(b: seq<byte>): (r: Parsed<u32>)
    ensures r != NotYet
  {
    var at := Find(b, CONTENT_LENGTH, 0);
    if at == None then Got(LEN_INVALID) else
      var end := Find(b, CRLF, at.value);
      if end == None then Got(LEN_INVALID) else
        LengthIsBehind(b, at.value, end.value);
        var text := b[at.value + 16..end.value];
        var len := Atoi(text);
        if |text| > 15 || !(-0x8000_0000 <= len < 0x8000_0000) then Overrun
        else if len >= 0 then Got(len) else Got(LEN_INVALID)
  }

  lemma LengthIsBehind(b: seq<byte>, at: nat, end: nat)
    requires At(b, CONTENT_LENGTH, at) && At(b, CRLF, end) && at <= end
    ensures at + 16 <= end
  {
    assert b[end] == b[end..end + 2][0] == 0x0D;
    forall k | 0 <= k < 16 ensures CONTENT_LENGTH[k] != 0x0D && b[at..at + 16][k] == CONTENT_LENGTH[k] {
    }
    forall k | at <= k < at + 16 ensures b[k] != 0x0D {
      assert b[k] == b[at..at + 16][k - at];
    }
  }

  /** A status line (section 3.1.2 of RFC 7230) up to and including its CRLF: version digits,
      three status digits, and a reason without line breaks. */
  ghost predicate StatusLine(line: seq<byte>, major: byte, minor: byte, code: seq<byte>) {
    && IsDigit(major) && IsDigit(minor) && |code| == 3 && Number(code, 0) > 0
    && (forall k :: 0 <= k < 3 ==> IsDigit(code[k]))
    && |line| >= 15
    && line[..5] == HTTP_SLASH && line[5..9] == [major, 0x2E, minor, 0x20] && line[9..12] == code && line[12] == 0x20
    && line[|line| - 2..] == CRLF
    && forall k :: 13 <= k < |line| - 2 ==> line[k] != 0x0D
  }

  /** Whatever follows the status line, the parser reads the line. */
  lemma StatusLineParsed(line: seq<byte>, major: byte, minor: byte, code: seq<byte>, b: seq<byte>)
    requires StatusLine(line, major, minor, code) && line <= b
    ensures Find(b, CRLF, 0) == Some(|line| - 2)
    ensures ParseStatus(b) == Got((ToU16(ToDigit(major) * 0x100 + ToDigit(minor)), ToU16(Number(code, 0))))
  {
    hide ParseStatus, Find, At;
    LineBytes(line, major, minor, code, b);
    ReturnOfLine(b, |line| - 2);
    forall j | 0 <= j < 8 ensures !At(b, SPACE, j) {
      NotAt(b, SPACE, j);
    }
    forall j | 9 <= j < 12 ensures !At(b, SPACE, j) {
      NotAt(b, SPACE, j);
    }
    OneByteAt(b, SPACE, 8);
    OneByteAt(b, SPACE, 12);
    FindIs(b, SPACE, 0, 8);
    FindIs(b, SPACE, 9, 12);
    ThreeDigits(code);
    LineRead(b, |line| - 2, major, minor, code);
  }

  /** In plain numbers: "HTTP/x.y nnn reason" is version x.y and status nnn. */
  lemma StatusRead(x: nat, y: nat, n: nat, reason: seq<byte>, rest: seq<byte>)
    requires x < 10 && y < 10 && 100 <= n <= 999 && 0x0D !in reason
    ensures ParseStatus(Ascii("HTTP/") + [0x30 + x, 0x2E, 0x30 + y, 0x20] + Digits(n) + [0x20] + reason + CRLF + rest)
            == Got((0x100 * x + y, n))
  {
    hide *;
    SlashText();
    StatusBehindSlash(x, y, n, reason, rest);
  }

  lemma StatusBehindSlash(x: nat, y: nat, n: nat, reason: seq<byte>, rest: seq<byte>)
    requires x < 10 && y < 10 && 100 <= n <= 999 && 0x0D !in reason
    ensures ParseStatus(HTTP_SLASH + [0x30 + x, 0x2E, 0x30 + y, 0x20] + Digits(n) + [0x20] + reason + CRLF + rest)
            == Got((0x100 * x + y, n))
  {
    CodeOf(n);
    VersionOf(x, y);
    Small(n);
    hide *;
    var line := HTTP_SLASH + [0x30 + x, 0x2E, 0x30 + y, 0x20] + Digits(n) + [0x20] + reason + CRLF;
    LineWritten(0x30 + x, 0x30 + y, Digits(n), reason);
    StatusLineParsed(line, 0x30 + x, 0x30 + y, Digits(n), line + rest);
  }

  lemma SlashText()
    ensures HTTP_SLASH == Ascii("HTTP/")
  {
  }

  lemma CodeOf(n: nat)
    requires 100 <= n <= 999
    ensures AllDigits(Digits(n)) && |Digits(n)| == 3 && Number(Digits(n), 0) == n
  {
    DigitsRead(n);
    DigitsCount(n, 3);
    DigitsCount(n, 2);
    assert Pow10(3) == 1000 && Pow10(2) == 100;
  }

  lemma Small(n: nat)
    requires n < TWO_16
    ensures ToU16(n) == n
  {
  }

  lemma VersionOf(x: nat, y: nat)
    requires x < 10 && y < 10
    ensures IsDigit(0x30 + x) && IsDigit(0x30 + y)
    ensures ToU16(ToDigit(0x30 + x) * 0x100 + ToDigit(0x30 + y)) == 0x100 * x + y
  {
  }

  lemma LineWritten(major: byte, minor: byte, code: seq<byte>, reason: seq<byte>)
    requires IsDigit(major) && IsDigit(minor) && AllDigits(code) && |code| == 3 && Number(code, 0) > 0
    requires 0x0D !in reason
    ensures StatusLine(HTTP_SLASH + [major, 0x2E, minor, 0x20] + code + [0x20] + reason + CRLF, major, minor, code)
  {
    hide Number;
    var line := HTTP_SLASH + [major, 0x2E, minor, 0x20] + code + [0x20] + reason + CRLF;
    assert line[..5] == HTTP_SLASH;
    assert line[5..9] == [major, 0x2E, minor, 0x20];
    assert line[9..12] == code;
    assert line[|line| - 2..] == CRLF;
    forall k | 13 <= k < |line| - 2 ensures line[k] != 0x0D {
      assert line[k] == reason[k - 13];
    }
  }

  /** The first "Content-Length: " stands at `at`, with the number n behind it. */
  ghost predicate Announces(b: seq<byte>, at: nat, n: nat) {
    && Find(b, CONTENT_LENGTH, 0) == Some(at)
    && at + 16 + |Digits(n)| <= |b| && b[at + 16..at + 16 + |Digits(n)|] == Digits(n)
    && At(b, CRLF, at + 16 + |Digits(n)|)
  }

  /** That number is the length that is read. */
  lemma LengthRead(b: seq<byte>, at: nat, n: nat)
    requires Announces(b, at, n) && n < 0x8000_0000
    ensures ContentLength(b) == Got(n)
  {
    var e := at + 16 + |Digits(n)|;
    DigitsRead(n);
    DigitsCount(n, 10);
    assert Pow10(10) == 10_000_000_000 by { assert Pow10(5) == 100_000; }
    NoReturnAhead(b, at, n);
    FindIs(b, CRLF, at, e);
    AtoiRead([], n, []);
    assert [] + (Digits(n) + []) == Digits(n);
    hide Find, Atoi, Digits;
  }

  lemma NoReturnAhead(b: seq<byte>, at: nat, n: nat)
    requires At(b, CONTENT_LENGTH, at) && at + 16 + |Digits(n)| <= |b|
    requires b[at + 16..at + 16 + |Digits(n)|] == Digits(n)
    ensures forall j :: at <= j < at + 16 + |Digits(n)| ==> !At(b, CRLF, j)
  {
    DigitsRead(n);
    hide Digits;
    forall j | at <= j < at + 16 + |Digits(n)| ensures !At(b, CRLF, j) {
      if j < at + 16 {
        assert b[j] == b[at..at + 16][j - at] == CONTENT_LENGTH[j - at] != 0x0D;
      } else {
        assert b[j] == b[at + 16..at + 16 + |Digits(n)|][j - at - 16] == Digits(n)[j - at - 16];
      }
      NotAt(b, CRLF, j);
    }
  }

  lemma OneByteAt(b: seq<byte>, pat: seq<byte>, j: nat)
    requires j < |b| && |pat| == 1 && b[j] == pat[0]
    ensures At(b, pat, j)
  {
  }

  lemma ReturnOfLine(b: seq<byte>, end: nat)
    requires end + 2 <= |b| && b[end..end + 2] == CRLF && forall k :: 0 <= k < end ==> b[k] != 0x0D
    ensures Find(b, CRLF, 0) == Some(end)
  {
    forall j | 0 <= j < end ensures !At(b, CRLF, j) {
      NotAt(b, CRLF, j);
    }
    FindIs(b, CRLF, 0, end);
  }

  /** The bytes of the line, one by one. */
  lemma LineBytes(line: seq<byte>, major: byte, minor: byte, code: seq<byte>, b: seq<byte>)
    requires StatusLine(line, major, minor, code) && line <= b
    ensures b[..5] == HTTP_SLASH && b[5] == major && b[6] == 0x2E && b[7] == minor && b[8] == b[12] == 0x20
    ensures forall k :: 0 <= k < 8 ==> b[k] != 0x20
    ensures b[9..12] == code && forall k :: 9 <= k < 12 ==> b[k] != 0x20
    ensures (forall k :: 0 <= k < |line| - 2 ==> b[k] != 0x0D) && b[|line| - 2..|line|] == CRLF
  {
    assert b[..|line|] == line;
    assert b[..5] == line[..5] && b[5..9] == line[5..9] && b[9..12] == line[9..12] == code;
    assert forall k :: 0 <= k < 5 ==> b[k] == b[..5][k] == HTTP_SLASH[k];
    assert b[5] == b[5..9][0] && b[6] == b[5..9][1] && b[7] == b[5..9][2] && b[8] == b[5..9][3];
    assert forall k :: 9 <= k < 12 ==> b[k] == b[9..12][k - 9];
    assert forall k :: 12 <= k < |line| - 2 ==> b[k] == line[k] && b[k] != 0x0D;
    assert line[|line| - 2..] == b[|line| - 2..|line|];
  }

  lemma ThreeDigits(code: seq<byte>)
    requires |code| == 3 && forall k :: 0 <= k < 3 ==> IsDigit(code[k])
    ensures Atoi(code) == Number(code, 0) <= 999
  {
    var one, two := code[1..], code[2..];
    assert one[1..] == two && two[1..] == [];
    var h := 10 * 0 + code[0] as int - 0x30;
    var t := 10 * h + code[1] as int - 0x30;
    assert Number(code, 0) == Number(one, h);
    assert Number(one, h) == Number(two, t);
    assert Number(two, t) == Number([], 10 * t + code[2] as int - 0x30);
  }

  lemma LineRead(b: seq<byte>, end: nat, major: byte, minor: byte, code: seq<byte>)
    requires |b| >= 13 && b[..5] == HTTP_SLASH && b[5] == major && b[6] == 0x2E && b[7] == minor && b[9..12] == code
    requires IsDigit(major) && IsDigit(minor) && 0 < Atoi(code) <= 0xFFFF
    requires Find(b, CRLF, 0) == Some(end) && Find(b, SPACE, 0) == Some(8) && Find(b, SPACE, 9) == Some(12)
    ensures ParseStatus(b) == Got((ToU16(ToDigit(major) * 0x100 + ToDigit(minor)), ToU16(Atoi(code))))
  {
    hide Find, Atoi, At;
    assert 8 + 1 == 9 && 12 - 8 - 1 == 3;
  }

  datatype ParseState = WaitFirstLine | WaitHeaders | RxData

  /** Everything a client knows about a response. */
  datatype Report = Report(state: ParseState, version: u16, status: u16, length: u32, body: seq<byte>)

  /** A response stream with what its status line and its header block say. */
  datatype Response =
    Response(stream: seq<byte>, line: seq<byte>, major: byte, minor: byte, code: seq<byte>, length: u32)
  {

    /** The stream begins with its status line and has a header block; if it holds the text
        "Content-Length: " at all, the first place is in the header block, with a number that
        fits the parser's buffer and an int. */
    ghost predicate Conforming() {
      && StatusLine(line, major, minor, code) && line <= stream
      && Find(stream, CRLF_CRLF, 0).Some?
      && LengthInHeaders(stream)
      && ContentLength(HeaderBlock(stream)) == Got(length)
    }

    /** The report on the part `b` of the stream, as a function of that part alone. */
    ghost function Told(b: seq<byte>): (r: Report) {
      if Find(b, CRLF, 0) == None then Report(WaitFirstLine, 0, 0, LEN_INVALID, [])
      else
        var version, status := ToU16(ToDigit(major) * 0x100 + ToDigit(minor)), ToU16(Number(code, 0));
        match Find(b, CRLF_CRLF, 0)
        case None => Report(WaitHeaders, version, status, LEN_INVALID, [])
        case Some(end) => Report(RxData, version, status, length, b[end + 4..])
    }
  }

  function HeaderBlock(s: seq<byte>): (r: seq<byte>)
    requires Find(s, CRLF_CRLF, 0).Some?
  {
    s[..Find(s, CRLF_CRLF, 0).value + 4]
  }

  /** The first "Content-Length: " of the stream, if there is one, is in the header block. */
  ghost predicate LengthInHeaders(s: seq<byte>)
    requires Find(s, CRLF_CRLF, 0).Some?
  {
    Find(s, CONTENT_LENGTH, 0).Some? ==> Find(s, CONTENT_LENGTH, 0).value < Find(s, CRLF_CRLF, 0).value
  }

  lemma PrefixSplits(b: seq<byte>, s: seq<byte>)
    requires b <= s
    ensures s == b + s[|b|..]
  {
  }

  /** With the length in the header block, it makes no difference how much of the body has
      arrived with the end of the header block. */
  lemma LengthSettled(b: seq<byte>, s: seq<byte>)
    requires b <= s && Find(b, CRLF_CRLF, 0).Some?
    ensures Find(s, CRLF_CRLF, 0) == Find(b, CRLF_CRLF, 0)
    ensures LengthInHeaders(s) ==> ContentLength(b) == ContentLength(HeaderBlock(s))
  {
    PrefixSplits(b, s);
    FindStable(b, s[|b|..], CRLF_CRLF, 0);
    var end := Find(s, CRLF_CRLF, 0).value;
    var h := HeaderBlock(s);
    assert h <= b;
    PrefixSplits(h, b);
    if LengthInHeaders(s) {
      LengthPlace(h, b, s, end);
    }
  }

  lemma LengthPlace(h: seq<byte>, b: seq<byte>, s: seq<byte>, end: nat)
    requires h <= b <= s && |h| == end + 4 && At(s, CRLF_CRLF, end)
    requires Find(s, CONTENT_LENGTH, 0).Some? ==> Find(s, CONTENT_LENGTH, 0).value < end
    ensures ContentLength(b) == ContentLength(h)
  {
    hide Find;
    if Find(s, CONTENT_LENGTH, 0) == None {
      hide ContentLength;
      NotInPrefix(b, s);
      NotInPrefix(h, s);
    } else {
      assert s[end..end + 2] == s[end..end + 4][..2];
      assert At(s, CRLF, end);
      LengthIn(b, s, end);
      LengthIn(h, s, end);
    }
  }

  lemma NotInPrefix(b: seq<byte>, s: seq<byte>)
    requires b <= s && Find(s, CONTENT_LENGTH, 0) == None
    ensures ContentLength(b) == Got(LEN_INVALID)
  {
    PrefixSplits(b, s);
    if Find(b, CONTENT_LENGTH, 0).Some? {
      FindStable(b, s[|b|..], CONTENT_LENGTH, 0);
      assert false;
    }
  }

  lemma LengthIn(b: seq<byte>, s: seq<byte>, end: nat)
    requires b <= s && end + 4 <= |b| && At(s, CRLF, end)
    requires Find(s, CONTENT_LENGTH, 0).Some? && Find(s, CONTENT_LENGTH, 0).value < end
    ensures ContentLength(b) == ContentLength(s)
  {
    hide Find;
    var at := Find(s, CONTENT_LENGTH, 0).value;
    LengthIsBehind(s, at, end);
    FoundInPrefix(b, s, CONTENT_LENGTH, 0);
    assert Find(s, CRLF, at).Some? && Find(s, CRLF, at).value <= end;
    FoundInPrefix(b, s, CRLF, at);
    var e := Find(s, CRLF, at).value;
    LengthIsBehind(s, at, e);
    assert b[at + 16..e] == s[at + 16..e];
  }

  lemma {:induction false} FoundInPrefix(b: seq<byte>, s: seq<byte>, pat: seq<byte>, i: nat)
    requires b <= s && Find(s, pat, i).Some? && Find(s, pat, i).value + |pat| <= |b|
    ensures Find(b, pat, i) == Find(s, pat, i)
    decreases |s| - i
  {
    SamePlace(b, s, i, i + |pat|);
    assert At(b, pat, i) ==> At(s, pat, i);
    if !At(s, pat, i) {
      FoundInPrefix(b, s, pat, i + 1);
    }
  }

  lemma SamePlace(b: seq<byte>, s: seq<byte>, lo: nat, hi: nat)
    requires b <= s && lo <= hi
    ensures hi <= |b| ==> b[lo..hi] == s[lo..hi]
  {
  }

  /** Otherwise it does make a difference: a stream whose first "Content-Length: " is in the
      body, with a proper number, is read with that length when it comes in one piece and
      without any when the header block comes alone. */
  lemma LengthUnsettled(s: seq<byte>, at: nat, e: nat)
    requires Find(s, CRLF_CRLF, 0).Some? && Find(s, CONTENT_LENGTH, 0) == Some(at) && Find(s, CRLF, at) == Some(e)
    requires !LengthInHeaders(s) && at + 16 <= e <= at + 31 && 0 <= Atoi(s[at + 16..e]) < 0x8000_0000
    ensures ContentLength(HeaderBlock(s)) == Got(LEN_INVALID)
    ensures ContentLength(s) != Got(LEN_INVALID)
  {
    var h := HeaderBlock(s);
    PrefixSplits(h, s);
    if Find(h, CONTENT_LENGTH, 0).Some? {
      FindStable(h, s[|h|..], CONTENT_LENGTH, 0);
      assert false;
    }
  }

  /** The outcome reported when the server closes. */
  datatype Result = Ok | ErrClosed | ErrContentLen

  /** What the report on a response says of its end: complete means as long as announced. */
  function Verdict(r: Report): Result {
    if r.state != RxData then ErrClosed
    else if r.length == LEN_INVALID || r.length == |r.body| % TWO_32 then Ok
    else ErrContentLen
  }

  /** struct _httpc_state */
  class HttpcState {
    var parseState: ParseState
    var rxHdrs: seq<byte>
    var rxHttpVersion: u16
    var rxStatus: u16
    var rxContentLen: u32
    var hdrContentLen: u32
    /** Body bytes passed on to the receive callback, which takes them all. */
    var delivered: seq<byte>
    /** A 16-bit pbuf length or a parser's buffer has overflowed; nothing is known after that. */
    var undefined: bool
    /** Every byte received. */
    ghost var received: seq<byte>

    constructor ()
      ensures received == [] && !undefined && Snapshot() == Report(WaitFirstLine, 0, 0, LEN_INVALID, [])
      ensures Sound()
    {
      parseState, rxHdrs, rxHttpVersion, rxStatus := WaitFirstLine, [], 0, 0;
      rxContentLen, hdrContentLen := 0, LEN_INVALID;
      delivered, received, undefined := [], [], false;
    }

    ghost function Snapshot(): (r: Report)
      reads this
    {
      Report(parseState, rxHttpVersion, rxStatus, hdrContentLen, delivered)
    }

    ghost predicate Sound()
      reads this
    {
      && (parseState != RxData ==> rxHdrs == received && delivered == [])
      && rxContentLen == |delivered| % TWO_32
    }

    /** The collected bytes are the first `b` of the conforming stream, and the client has
        told what can be told from them. */
    ghost predicate Follows(k: Response, b: seq<byte>)
      reads this
    {
      k.Conforming() && b <= k.stream && Snapshot() == k.Told(b)
    }

    /** httpc_tcp_recv with a segment. For a conforming response the report afterwards is a
        function of the bytes received so far, so the way they were cut into segments leaves no
        trace; the only way out is a segment that takes the collected headers past 16 bits. */
    method Receive(p: seq<byte>, ghost k: Response)
      requires Sound() && !undefined
      modifies this
      ensures received == old(received) + p && (!undefined ==> Sound())
      ensures received <= k.stream && old(Follows(k, received)) ==>
                && (undefined <==> old(parseState) != RxData && |received| > 0xFFFF)
                && (!undefined ==> Follows(k, received))
    {
      hide Find, ParseStatus, ContentLength, StatusLine, Response.Conforming;
      ghost var b0, follows := received, Follows(k, received) && received + p <= k.stream;
      received := received + p;
      var data := p;
      if parseState != RxData {
        if |rxHdrs| + |p| > 0xFFFF {
          undefined := true;
          return;
        }
        rxHdrs := rxHdrs + p;
        if follows {
          Settled(k, b0, p);
        }
        if parseState == WaitFirstLine {
          match ParseStatus(rxHdrs) {
            case NotYet =>
            case Overrun =>
              undefined := true;
              return;
            case Got(value) =>
              rxHttpVersion, rxStatus, parseState := value.0, value.1, WaitHeaders;
          }
        }
        data := [];
        if parseState == WaitHeaders {
          var ended;
          data, ended := EndHeaders();
          if undefined {
            return;
          }
        }
      } else if follows {
        Settled(k, b0, p);
      }
      if parseState == RxData && data != [] {
        AddLength(rxContentLen, |delivered|, |data|);
        rxContentLen := (rxContentLen + |data|) % TWO_32;
        delivered := delivered + data;
      }
    }

    /** httpc_tcp_recv when the server has closed: a failure exactly when the blank line has not
        come, and otherwise success exactly when no length was announced or as many bytes have
        come behind the blank line, counted in 32 bits. */
    method Close(ghost k: Response) returns (result: Result)
      requires Sound()
      ensures result == Verdict(Snapshot())
      ensures Follows(k, received) ==> (result == ErrClosed <==> Find(received, CRLF_CRLF, 0) == None)
      ensures Follows(k, received) && result != ErrClosed ==>
                (result == Ok <==> k.length == 0xFFFF_FFFF || k.length == BodySize(received) % 0x1_0000_0000)
      ensures Follows(k, received) && result != ErrClosed ==> result == Ok || result == ErrContentLen
    {
      hide Find, Response.Conforming;
      StateTold(k, received);
      if Find(received, CRLF_CRLF, 0).Some? {
        ToldBody(k, received);
      }
      if parseState != RxData {
        result := ErrClosed;
      } else if hdrContentLen != LEN_INVALID && hdrContentLen != rxContentLen {
        result := ErrContentLen;
      } else {
        result := Ok;
      }
    }

    /** http_wait_headers and what follows it: the length is read and the header bytes are
        dropped from the collected ones. */
    method EndHeaders() returns (data: seq<byte>, ended: bool)
      requires parseState == WaitHeaders
      modifies this`hdrContentLen, this`rxHdrs, this`parseState, this`undefined
      ensures ended <==> Find(old(rxHdrs), CRLF_CRLF, 0).Some?
      ensures !ended ==> unchanged(this) && data == []
      ensures ended ==> (undefined <==> old(undefined) || ContentLength(old(rxHdrs)) == Overrun)
      ensures ended && !undefined ==> ContentLength(old(rxHdrs)) == Got(hdrContentLen) && parseState == RxData
      ensures ended && !undefined ==> data == old(rxHdrs)[Find(old(rxHdrs), CRLF_CRLF, 0).value + 4..]
    {
      hide ContentLength;
      var end := Find(rxHdrs, CRLF_CRLF, 0);
      ended := end.Some?;
      data := [];
      if ended {
        var len := ContentLength(rxHdrs);
        if len.Got? {
          hdrContentLen := len.value;
          data := rxHdrs[end.value + 4..];
          rxHdrs := [];
          parseState := RxData;
        } else {
          undefined := true;
        }
      }
    }
  }

  lemma AddLength(a: u32, n: nat, m: nat)
    requires a == n % TWO_32
    ensures (a + m) % TWO_32 == (n + m) % TWO_32
  {
  }

  /** Parsing any part of a conforming stream gives nothing or the right answer, and what has
      been found stays found. */
  lemma Settled(k: Response, b: seq<byte>, p: seq<byte>)
    requires k.Conforming() && b + p <= k.stream
    ensures Find(b + p, CRLF, 0) == None ==> ParseStatus(b + p) == NotYet
    ensures Find(b + p, CRLF, 0).Some? ==>
              ParseStatus(b + p) == Got((ToU16(ToDigit(k.major) * 0x100 + ToDigit(k.minor)), ToU16(Number(k.code, 0))))
    ensures Find(b + p, CRLF_CRLF, 0).Some? ==> ContentLength(b + p) == Got(k.length) && Find(b + p, CRLF, 0).Some?
    ensures Find(b, CRLF, 0).Some? ==> Find(b + p, CRLF, 0).Some?
    ensures Find(b, CRLF_CRLF, 0).Some? ==> Find(b + p, CRLF_CRLF, 0) == Find(b, CRLF_CRLF, 0)
    ensures Find(b, CRLF_CRLF, 0).Some? ==>
              (b + p)[Find(b, CRLF_CRLF, 0).value + 4..] == b[Find(b, CRLF_CRLF, 0).value + 4..] + p
  {
    hide ContentLength, StatusLine, LengthInHeaders, HeaderBlock, Find, At;
    var all := b + p;
    if Find(all, CRLF_CRLF, 0).Some? {
      LengthSettled(all, k.stream);
      LineAtBlank(all);
    }
    if Find(b, CRLF_CRLF, 0).Some? {
      FindStable(b, p, CRLF_CRLF, 0);
      BehindBlank(b, p);
    }
    if Find(b, CRLF, 0).Some? {
      FindStable(b, p, CRLF, 0);
    }
    if Find(all, CRLF, 0).Some? {
      hide ParseStatus;
      LineSettled(k, all);
    }
  }

  lemma BehindBlank(b: seq<byte>, p: seq<byte>)
    requires Find(b, CRLF_CRLF, 0).Some?
    ensures var end := Find(b, CRLF_CRLF, 0).value; end + 4 <= |b| && (b + p)[end + 4..] == b[end + 4..] + p
  {
    hide Find;
    TailOf(b, p, Find(b, CRLF_CRLF, 0).value + 4);
  }

  lemma TailOf(b: seq<byte>, p: seq<byte>, n: nat)
    requires n <= |b|
    ensures (b + p)[n..] == b[n..] + p
  {
  }

  lemma LineAtBlank(s: seq<byte>)
    requires Find(s, CRLF_CRLF, 0).Some?
    ensures Find(s, CRLF, 0).Some?
  {
    var end := Find(s, CRLF_CRLF, 0).value;
    assert s[end..end + 2] == s[end..end + 4][..2];
    assert At(s, CRLF, end);
  }

  lemma LineSettled(k: Response, b: seq<byte>)
    requires k.Conforming() && b <= k.stream && Find(b, CRLF, 0).Some?
    ensures ParseStatus(b) == Got((ToU16(ToDigit(k.major) * 0x100 + ToDigit(k.minor)), ToU16(Number(k.code, 0))))
  {
    hide ParseStatus, ContentLength, StatusLine, LengthInHeaders, HeaderBlock;
    StatusLineParsed(k.line, k.major, k.minor, k.code, k.stream);
    PrefixSplits(b, k.stream);
    FindStable(b, k.stream[|b|..], CRLF, 0);
    assert k.line <= b;
    StatusLineParsed(k.line, k.major, k.minor, k.code, b);
  }

  /** Segment `i` comes before the header block is complete and takes what has been collected
      beyond the length of a pbuf chain. */
  predicate HeadTooLong(segments: seq<seq<byte>>, i: nat) {
    && i < |segments|
    && Find(Flatten(segments[..i]), CRLF_CRLF, 0) == None
    && |Flatten(segments[..i + 1])| > 0xFFFF
  }

  /** Any way of cutting a conforming response into segments leaves the client with the same
      report on it, and the only ways that do not are those with a segment that takes the
      header block beyond 16 bits. */
  method ReceiveAll(c: HttpcState, segments: seq<seq<byte>>, ghost k: Response)
    requires c.Sound() && !c.undefined && c.received == []
    requires c.Snapshot() == Report(WaitFirstLine, 0, 0, LEN_INVALID, [])
    requires k.Conforming() && Flatten(segments) <= k.stream
    modifies c
    ensures c.undefined <==> exists i :: 0 <= i < |segments| && HeadTooLong(segments, i)
    ensures !c.undefined ==> c.Sound() && c.Snapshot() == k.Told(Flatten(segments)) && c.received == Flatten(segments)
  {
    hide Response.Conforming, Find, Flatten;
    NothingFollows(k);
    assert segments[..0] == [];
    var i := 0;
    while i < |segments|
      invariant i <= |segments| && !c.undefined && c.Sound() && c.received == Flatten(segments[..i])
      invariant c.Follows(k, c.received)
      invariant forall j :: 0 <= j < i ==> !HeadTooLong(segments, j)
      decreases |segments| - i
    {
      SegmentAdded(segments, i);
      PrefixIsPrefix(Flatten(segments[..i + 1]), Flatten(segments), k.stream);
      StateTold(k, c.received);
      c.Receive(segments[i], k);
      if c.undefined {
        assert HeadTooLong(segments, i);
        return;
      }
      i := i + 1;
    }
    assert segments[..i] == segments;
  }

  lemma NothingFollows(k: Response)
    ensures Flatten<byte>([]) == []
    ensures k.Told([]) == Report(WaitFirstLine, 0, 0, LEN_INVALID, [])
  {
  }

  lemma PrefixIsPrefix(a: seq<byte>, b: seq<byte>, c: seq<byte>)
    requires a <= b <= c
    ensures a <= c
  {
  }

  lemma SegmentAdded(segments: seq<seq<byte>>, i: nat)
    requires i < |segments|
    ensures Flatten(segments[..i + 1]) == Flatten(segments[..i]) + segments[i]
    ensures Flatten(segments[..i + 1]) <= Flatten(segments)
  {
    hide *;
    PrefixNext(segments, i);
    FlattenAppend(segments[..i], segments[i]);
    FlattenPrefix(segments, i + 1);
  }

  /** How many bytes have come behind the blank line. */
  function BodySize(b: seq<byte>): (n: nat) {
    match Find(b, CRLF_CRLF, 0)
    case None => 0
    case Some(end) => |b| - end - 4
  }

  lemma ToldBody(k: Response, b: seq<byte>)
    requires Find(b, CRLF_CRLF, 0).Some?
    ensures |k.Told(b).body| == BodySize(b) && k.Told(b).length == k.length
  {
    LineAtBlank(b);
  }

  /** A response from the first segment to the end of the connection. */
  method Fetch(c: HttpcState, segments: seq<seq<byte>>, ghost k: Response) returns (result: Result)
    requires c.Sound() && !c.undefined && c.received == []
    requires c.Snapshot() == Report(WaitFirstLine, 0, 0, LEN_INVALID, [])
    requires k.Conforming() && Flatten(segments) <= k.stream
    modifies c
    ensures c.undefined <==> exists i :: 0 <= i < |segments| && HeadTooLong(segments, i)
    ensures !c.undefined && Find(Flatten(segments), CRLF, 0).Some? ==>
              c.rxHttpVersion == 0x100 * (k.major - 0x30) + (k.minor - 0x30)
              && forall n: nat :: k.code == Digits(n) ==> c.rxStatus == n
    ensures !c.undefined && Find(Flatten(segments), CRLF_CRLF, 0).Some? ==>
              c.delivered == Flatten(segments)[Find(Flatten(segments), CRLF_CRLF, 0).value + 4..]
    ensures !c.undefined ==> (result == ErrClosed <==> Find(Flatten(segments), CRLF_CRLF, 0) == None)
    ensures !c.undefined && result != ErrClosed ==>
              result == (if k.length == 0xFFFF_FFFF || k.length == BodySize(Flatten(segments)) % 0x1_0000_0000 then Ok
                         else ErrContentLen)
  {
    StatusTold(k, Flatten(segments));
    hide Find, Response.Conforming, HeadTooLong, Flatten, Response.Told, BodySize;
    ReceiveAll(c, segments, k);
    result := ErrClosed;
    if !c.undefined {
      result := c.Close(k);
    }
  }

  lemma StatusTold(k: Response, b: seq<byte>)
    requires k.Conforming()
    ensures Find(b, CRLF, 0).Some? ==>
              k.Told(b).version == 0x100 * (k.major - 0x30) + (k.minor - 0x30)
              && forall n: nat :: k.code == Digits(n) ==> k.Told(b).status == n
    ensures Find(b, CRLF_CRLF, 0).Some? ==> k.Told(b).body == b[Find(b, CRLF_CRLF, 0).value + 4..]
  {
    hide Find, ContentLength, LengthInHeaders, HeaderBlock, Number;
    VersionOf(k.major - 0x30, k.minor - 0x30);
    CodeTold(k.code);
    if Find(b, CRLF_CRLF, 0).Some? {
      LineAtBlank(b);
    }
    hide ToU16, ToDigit, StatusLine;
  }

  lemma CodeTold(code: seq<byte>)
    requires |code| == 3
    ensures forall n: nat :: code == Digits(n) ==> ToU16(Number(code, 0)) == n
  {
    forall n: nat | code == Digits(n) ensures ToU16(Number(code, 0)) == n {
      DigitsRead(n);
      DigitsCount(n, 3);
      assert Pow10(3) == 1000;
      Small(n);
    }
  }

  /** What a conforming response announces: the number in its header block, or nothing. */
  lemma Announced(k: Response, at: nat, n: nat)
    requires k.Conforming() && n < 0x8000_0000
    ensures Find(HeaderBlock(k.stream), CONTENT_LENGTH, 0) == None ==> k.length == 0xFFFF_FFFF
    ensures Announces(HeaderBlock(k.stream), at, n) ==> k.length == n
  {
    hide Find, StatusLine, Announces;
    if Announces(HeaderBlock(k.stream), at, n) {
      LengthRead(HeaderBlock(k.stream), at, n);
    }
  }

  /** The state in a report tells whether the blank line has come. */
  lemma StateTold(k: Response, b: seq<byte>)
    ensures k.Told(b).state == RxData <==> Find(b, CRLF_CRLF, 0).Some?
  {
    if Find(b, CRLF_CRLF, 0).Some? {
      LineAtBlank(b);
    }
  }

  /** No carriage return but the one at the end, and no `C`. */
  ghost predicate PlainLine(line: seq<byte>) {
    && |line| >= 2 && line[|line| - 2..] == CRLF
    && (forall k :: 0 <= k < |line| - 2 ==> line[k] != 0x0D) && (forall k :: 0 <= k < |line| ==> line[k] != 0x43)
  }

  lemma HeadFound(line: seq<byte>, digits: seq<byte>, body: seq<byte>)
    requires PlainLine(line) && AllDigits(digits)
    ensures var s := line + CONTENT_LENGTH + digits + CRLF_CRLF + body;
      && Find(s, CRLF_CRLF, 0) == Some(|line| + 16 + |digits|) && Find(s, CONTENT_LENGTH, 0) == Some(|line|)
      && s[|line| + 16..|line| + 16 + |digits|] == digits && At(s, CRLF, |line| + 16 + |digits|)
  {
    var s, n, e := line + CONTENT_LENGTH + digits + CRLF_CRLF + body, |line|, |line| + 16 + |digits|;
    assert s[..n] == line && s[n..n + 16] == CONTENT_LENGTH && s[n + 16..e] == digits && s[e..e + 4] == CRLF_CRLF;
    hide AllDigits;
    assert s[e..e + 2] == s[e..e + 4][..2] == CRLF;
    assert s[n] == s[n..n + 16][0] == 0x43;
    forall j | 0 <= j < n ensures !At(s, CONTENT_LENGTH, j) {
      assert s[j] == s[..n][j];
      NotAt(s, CONTENT_LENGTH, j);
    }
    FindIs(s, CONTENT_LENGTH, 0, n);
    forall j | 0 <= j < e ensures !At(s, CRLF_CRLF, j) {
      if j == n - 2 {
        NotBlank(s, j);
      } else {
        NoReturnAt(line, digits, s, j);
        NotAt(s, CRLF_CRLF, j);
      }
    }
    FindIs(s, CRLF_CRLF, 0, e);
  }

  lemma NotBlank(s: seq<byte>, j: nat)
    requires j + 2 < |s| && s[j + 2] != 0x0D
    ensures !At(s, CRLF_CRLF, j)
  {
    assert j + 4 <= |s| ==> s[j..j + 4][2] == s[j + 2];
  }

  lemma NoReturnAt(line: seq<byte>, digits: seq<byte>, s: seq<byte>, j: nat)
    requires PlainLine(line) && AllDigits(digits) && j < |line| + 16 + |digits| <= |s| && j != |line| - 2
    requires s[..|line|] == line && s[|line|..|line| + 16] == CONTENT_LENGTH
    requires s[|line| + 16..|line| + 16 + |digits|] == digits
    ensures s[j] != 0x0D
  {
    var n := |line|;
    if j < n {
      assert s[j] == s[..n][j];
      assert line[n - 1] == line[n - 2..][1];
    } else if j < n + 16 {
      assert s[j] == s[n..n + 16][j - n];
    } else {
      assert s[j] == s[n + 16..n + 16 + |digits|][j - n - 16] == digits[j - n - 16];
    }
  }

  /** There are such responses: every status line whose reason has no `C` in it, followed by the
      length and by any body, whether it is as long as announced or not. */
  lemma ConformingWritten(x: nat, y: nat, n: nat, reason: seq<byte>, length: nat, body: seq<byte>) returns (k: Response)
    requires x < 10 && y < 10 && 100 <= n <= 999 && 0x0D !in reason && 0x43 !in reason && length < 0x8000_0000
    ensures k.Conforming() && k.length == length && k.major == 0x30 + x && k.minor == 0x30 + y && k.code == Digits(n)
    ensures k.stream == HTTP_SLASH + [0x30 + x, 0x2E, 0x30 + y, 0x20] + Digits(n) + [0x20] + reason + CRLF
                        + CONTENT_LENGTH + Digits(length) + CRLF_CRLF + body
  {
    var line := HTTP_SLASH + [0x30 + x, 0x2E, 0x30 + y, 0x20] + Digits(n) + [0x20] + reason + CRLF;
    var s := line + CONTENT_LENGTH + Digits(length) + CRLF_CRLF + body;
    k := Response(s, line, 0x30 + x, 0x30 + y, Digits(n), length);
    CodeOf(n);
    VersionOf(x, y);
    LineWritten(0x30 + x, 0x30 + y, Digits(n), reason);
    WrittenIsPlain(0x30 + x, 0x30 + y, Digits(n), reason);
    DigitsRead(length);
    hide Response.Conforming, StatusLine, PlainLine, Digits, AllDigits;
    ConformingParts(k, body);
  }

  lemma WrittenIsPlain(major: byte, minor: byte, code: seq<byte>, reason: seq<byte>)
    requires IsDigit(major) && IsDigit(minor) && AllDigits(code) && 0x0D !in reason && 0x43 !in reason
    ensures PlainLine(HTTP_SLASH + [major, 0x2E, minor, 0x20] + code + [0x20] + reason + CRLF)
  {
  }

  lemma ConformingParts(k: Response, body: seq<byte>)
    requires StatusLine(k.line, k.major, k.minor, k.code) && PlainLine(k.line) && k.length < 0x8000_0000
    requires AllDigits(Digits(k.length))
    requires k.stream == k.line + CONTENT_LENGTH + Digits(k.length) + CRLF_CRLF + body
    ensures k.Conforming()
  {
    hide *;
    BlockFound(k.line, Digits(k.length), body);
    LengthOfBlock(HeaderBlock(k.stream), |k.line|, k.length);
    ConformingFrom(k);
  }

  lemma LengthOfBlock(h: seq<byte>, n: nat, length: nat)
    requires Find(h, CONTENT_LENGTH, 0) == Some(n) && |h| == n + 20 + |Digits(length)| && length < 0x8000_0000
    requires h[n + 16..n + 16 + |Digits(length)|] == Digits(length) && At(h, CRLF, n + 16 + |Digits(length)|)
    ensures ContentLength(h) == Got(length)
  {
    hide Find, Digits, ContentLength, At;
    LengthRead(h, n, length);
  }

  lemma ConformingFrom(k: Response)
    requires StatusLine(k.line, k.major, k.minor, k.code) && k.line <= k.stream && Find(k.stream, CRLF_CRLF, 0).Some?
    requires LengthInHeaders(k.stream) && ContentLength(HeaderBlock(k.stream)) == Got(k.length)
    ensures k.Conforming()
  {
  }

  lemma BlockFound(line: seq<byte>, digits: seq<byte>, body: seq<byte>)
    requires PlainLine(line) && AllDigits(digits)
    ensures var s, n, e := line + CONTENT_LENGTH + digits + CRLF_CRLF + body, |line|, |line| + 16 + |digits|;
      && Find(s, CRLF_CRLF, 0).Some? && LengthInHeaders(s) && line <= s
      && var h := HeaderBlock(s);
         && Find(h, CONTENT_LENGTH, 0) == Some(n) && |h| == e + 4 && h[n + 16..e] == digits && At(h, CRLF, e)
  {
    HeadFound(line, digits, body);
    HeadFound(line, digits, []);
    hide Find, PlainLine, At, AllDigits;
    var h := line + CONTENT_LENGTH + digits + CRLF_CRLF;
    FrontOf(h, body);
    LineInFront(line, CONTENT_LENGTH, digits, body);
  }

  lemma FrontOf(a: seq<byte>, b: seq<byte>)
    ensures (a + b)[..|a|] == a && a + [] == a
  {
  }

  lemma LineInFront(a: seq<byte>, b: seq<byte>, c: seq<byte>, e: seq<byte>)
    ensures a <= a + b + c + CRLF_CRLF + e
  {
  }
}
