/**
 * The rest of struct http_state: header strings ahead of the file, end of file, and
 * http_send, which decides between them.
 */
module HttpResponse {
  import opened Bytes
  import opened Prelude
  import opened SsiTags
  import opened SsiScan
  import opened TcpOut
  import opened FileSending

  const NUM_FILE_HDR_STRINGS := 5

  /** An entry of hdrs: NULL or a string. */
  datatype HdrString = Null | Str(text: seq<byte>)

  /** The header strings once the content length has been decided. */
  function WithLength(hdrs: seq<HdrString>, adds: bool, number: seq<byte>): (r: seq<HdrString>)
    requires |hdrs| == NUM_FILE_HDR_STRINGS
    ensures |r| == NUM_FILE_HDR_STRINGS
  {
    if adds && hdrs[2] == Null then hdrs[2 := Str(CONTENT_LENGTH)][3 := Str(number + CRLF)] else hdrs
  }

  /** The non-NULL strings from `index` on, one after the other. */
  ghost function HeaderText(hdrs: seq<HdrString>, index: nat): (r: seq<byte>)
    decreases |hdrs| - index
  {
    if index >= |hdrs| then []
    else (if hdrs[index].Str? then hdrs[index].text else []) + HeaderText(hdrs, index + 1)
  }

  /** The same, with `pos` bytes of the first string gone. */
  ghost function HeaderRest(hdrs: seq<HdrString>, index: nat, pos: nat): (r: seq<byte>) {
    if index >= |hdrs| then []
    else (if hdrs[index].Str? && pos <= |hdrs[index].text| then hdrs[index].text[pos..] else [])
         + HeaderText(hdrs, index + 1)
  }

  /** In order: status, server, the length if one is added, and the content type. */
  lemma HeaderOrder(status: seq<byte>, server: seq<byte>, contentType: seq<byte>, adds: bool, number: seq<byte>)
    ensures HeaderRest(WithLength([Str(status), Str(server), Null, Null, Str(contentType)], adds, number), 0, 0)
            == status + server + (if adds then Ascii("Content-Length: ") + number + Ascii("\r\n") else []) + contentType
  {
    var hdrs := WithLength([Str(status), Str(server), Null, Null, Str(contentType)], adds, number);
    Texts(0);
    assert HeaderText(hdrs, 5) == [];
    assert HeaderText(hdrs, 4) == contentType;
    assert HeaderText(hdrs, 3) == (if adds then number + CRLF else []) + contentType;
    assert HeaderText(hdrs, 2) == (if adds then CONTENT_LENGTH else []) + HeaderText(hdrs, 3);
    assert HeaderText(hdrs, 1) == server + HeaderText(hdrs, 2);
    hide HeaderText;
  }

  predicate ShortHeader(h: HdrString) {
    h.Str? ==> |h.text| <= 0xFFFF
  }

  /** Either every header string is still due, with a status line, or sending has begun; the
      string being sent is never NULL, and no string is longer than 16 bits tell. */
  ghost predicate HeadersSet(hdrs: seq<HdrString>, index: nat) {
    && |hdrs| == NUM_FILE_HDR_STRINGS && index <= NUM_FILE_HDR_STRINGS
    && (index < NUM_FILE_HDR_STRINGS ==> hdrs[index].Str?)
    && forall k :: 0 <= k < NUM_FILE_HDR_STRINGS ==> ShortHeader(hdrs[k])
  }

  lemma HeaderSent(hdrs: seq<HdrString>, index: nat)
    requires index < |hdrs| && hdrs[index].Str?
    ensures HeaderRest(hdrs, index, |hdrs[index].text|) == HeaderText(hdrs, index + 1)
  {
  }

  lemma NullSkipped(hdrs: seq<HdrString>, index: nat)
    requires index < |hdrs| && hdrs[index] == Null
    ensures HeaderText(hdrs, index + 1) == HeaderText(hdrs, index)
  {
  }

  lemma HeaderStarts(hdrs: seq<HdrString>, index: nat)
    ensures HeaderRest(hdrs, index, 0) == HeaderText(hdrs, index)
  {
  }

  lemma HeaderMoved(wire: seq<byte>, header: seq<byte>, lo: nat, hi: nat, more: seq<byte>, doc: seq<byte>)
    requires lo <= hi <= |header|
    ensures wire + (header[lo..] + more) + doc == wire + header[lo..hi] + (header[hi..] + more) + doc
  {
    assert header[lo..] == header[lo..hi] + header[hi..];
  }

  lemma HeaderUnderWay(hdrs: seq<HdrString>, index: nat)
    requires HeadersSet(hdrs, index) && index < NUM_FILE_HDR_STRINGS
    ensures |hdrs| == NUM_FILE_HDR_STRINGS && hdrs[index].Str? && |hdrs[index].text| <= 0xFFFF
  {
    assert ShortHeader(hdrs[index]);
  }

  lemma RestUnderWay(hdrs: seq<HdrString>, index: nat, pos: nat)
    requires index < |hdrs| && hdrs[index].Str? && pos <= |hdrs[index].text|
    ensures HeaderRest(hdrs, index, pos) == hdrs[index].text[pos..] + HeaderText(hdrs, index + 1)
  {
  }

  /** The bytes of a header string that go out leave the rest of it. */
  lemma HeaderTaken(hdrs: seq<HdrString>, index: nat, pos: nat, request: nat, n: nat, wire: seq<byte>, doc: seq<byte>)
    requires index < |hdrs| && hdrs[index].Str? && n <= request && pos + request <= |hdrs[index].text|
    ensures wire + hdrs[index].text[pos..pos + request][..n] + HeaderRest(hdrs, index, pos + n) + doc
            == wire + HeaderRest(hdrs, index, pos) + doc
  {
    hide HeaderText, HeaderRest;
    var header := hdrs[index].text;
    PrefixOfSlice(header, pos, pos + request, n);
    RestUnderWay(hdrs, index, pos);
    RestUnderWay(hdrs, index, pos + n);
    HeaderMoved(wire, header, pos, pos + n, HeaderText(hdrs, index + 1), doc);
  }

  lemma WithLengthSet(hdrs: seq<HdrString>, index: nat, adds: bool, number: seq<byte>)
    requires HeadersSet(hdrs, index) && (adds ==> |number| <= 9)
    ensures HeadersSet(WithLength(hdrs, adds, number), index)
  {
    var final := WithLength(hdrs, adds, number);
    forall k | 0 <= k < NUM_FILE_HDR_STRINGS ensures ShortHeader(final[k]) {
      assert k != 2 && k != 3 ==> final[k] == hdrs[k];
    }
  }

  class HttpState {
    const pcb: Pcb
    const body: FileSender
    /** A file was found; without one only headers are sent. */
    const hasFile: bool
    /** FS_FILE_FLAGS_HEADER_PERSISTENT */
    const persistent: bool
    /** get_http_content_length adds a length: plain files marked persistent, when the number
        has at most nine digits. */
    const addsLength: bool
    const lengthText: seq<byte>
    /** The header strings once that is decided, and the first of them that is sent. */
    ghost const finalHdrs: seq<HdrString>
    ghost const firstHdr: nat

    /** Header strings, Null for NULL, and how far they have been sent. */
    var hdrs: seq<HdrString>
    var hdrIndex: nat
    var hdrPos: nat
    /** http_eof has closed the connection and freed this state. */
    var closed: bool

    /** http_init_file and get_http_headers; `hdrIndex` is NUM_FILE_HDR_STRINGS when the
        headers are part of the file image. */
    constructor (body: FileSender, hasFile: bool, persistent: bool, hdrs: seq<HdrString>, hdrIndex: nat)
      requires body.Valid() && body.Resting() && !body.halted && body.pcb.wire == []
      requires body.Pending() == body.Document()
      requires HeadersSet(hdrs, hdrIndex) && hdrs[2] == hdrs[3] == Null
      requires !hasFile ==> body.data == [] && !body.isSsi
      ensures this.body == body && pcb == body.pcb && this.hasFile == hasFile && this.persistent == persistent
      ensures this.hdrIndex == hdrIndex && !closed && Inv()
      ensures finalHdrs == WithLength(hdrs, addsLength, lengthText) && firstHdr == hdrIndex
      ensures lengthText == Digits(|body.data|)
      ensures addsLength <==> hasFile && !body.isSsi && persistent && |lengthText| <= 9
    {
      hide FileSender.Valid, FileSender.Pending, FileSender.Resting, Digits, WithLength;
      this.body, this.pcb, this.hasFile, this.persistent := body, body.pcb, hasFile, persistent;
      this.hdrs, this.hdrIndex, this.hdrPos, closed := hdrs, hdrIndex, 0, false;
      var number := Digits(|body.data|);
      var adds := hasFile && !body.isSsi && persistent && |number| <= 9;
      addsLength, lengthText := adds, number;
      finalHdrs, firstHdr := WithLength(hdrs, adds, number), hdrIndex;
      new;
      WithLengthSet(hdrs, hdrIndex, adds, number);
      assert pcb.wire + Headers() + body.Pending() == Response();
    }

    /** What the client is to receive in all. */
    ghost function Response(): (r: seq<byte>) {
      HeaderRest(finalHdrs, firstHdr, 0) + body.Document()
    }

    ghost function Headers(): (r: seq<byte>)
      reads this
    {
      HeaderRest(finalHdrs, hdrIndex, hdrPos)
    }

    ghost predicate HeadersValid()
      reads this
    {
      && pcb == body.pcb && hdrIndex <= NUM_FILE_HDR_STRINGS && HeadersSet(hdrs, hdrIndex)
      && (hdrs[2] == Null ==> hdrs[3] == Null)
      && WithLength(hdrs, addsLength, lengthText) == finalHdrs && HeadersSet(finalHdrs, hdrIndex)
      && (addsLength <==> hasFile && !body.isSsi && persistent && |lengthText| <= 9)
      && (hdrIndex < NUM_FILE_HDR_STRINGS ==> hdrPos <= |hdrs[hdrIndex].text|)
      && (!hasFile ==> body.data == [] && !body.isSsi)
    }

    /** Between calls: the wire holds the response up to what is pending, and no byte of the
        body is sent while a header is pending. */
    ghost predicate Inv()
      reads this, pcb, body
    {
      && HeadersValid() && body.Valid() && body.Resting()
      && (hdrIndex < NUM_FILE_HDR_STRINGS ==> body.Pending() == body.Document())
      && pcb.wire + Headers() + body.Pending() == Response()
    }

    /** get_http_content_length */
    method GetContentLength()
      requires Inv() && hdrs[2] == Null && hdrIndex < NUM_FILE_HDR_STRINGS
      modifies this`hdrs
      ensures Inv() && hdrs == finalHdrs
    {
      hide FileSender.Valid, FileSender.Pending, FileSender.Resting, Digits;
      if !body.isSsi && hasFile && persistent {
        if |lengthText| <= 9 {
          hdrs := hdrs[3 := Str(lengthText + CRLF)];
          hdrs := hdrs[2 := Str(CONTENT_LENGTH)];
          assert hdrs == finalHdrs;
        }
      }
    }

    /** http_send_headers. Answers 3 when the connection is gone, 2 to stop here, 1 or 0 to go
        on with the body. */
    method SendHeaders() returns (dataToSend: nat)
      requires Inv() && hdrIndex < NUM_FILE_HDR_STRINGS && !closed
      modifies this`hdrs, this`hdrIndex, this`hdrPos, this`closed, pcb`wire, pcb`sndbuf
      ensures Inv()
      ensures closed ==> hdrIndex == NUM_FILE_HDR_STRINGS && !hasFile && dataToSend == 3
      ensures !closed ==> dataToSend != 3 && (hdrIndex == NUM_FILE_HDR_STRINGS ==> hasFile)
      ensures hdrIndex < NUM_FILE_HDR_STRINGS ==> dataToSend == 2
      ensures old(hdrIndex) <= hdrIndex && |pcb.wire| >= |old(pcb.wire)|
      ensures old(pcb.sndbuf) > 0 && (pcb.memory == Plenty || old(Headers()) == []) ==>
                hdrIndex > old(hdrIndex) || |pcb.wire| > |old(pcb.wire)|
      ensures pcb.memory == Exhausted ==> pcb.wire == old(pcb.wire)
      ensures |pcb.wire| + pcb.sndbuf == old(|pcb.wire| + pcb.sndbuf)
    {
      hide FileSender.Valid, FileSender.Pending, FileSender.Resting, HeaderRest, Digits;
      dataToSend := 0;
      if hdrs[2] == Null {
        GetContentLength();
      }
      var len := pcb.sndbuf;
      var sendlen := len;
      while len != 0 && hdrIndex < NUM_FILE_HDR_STRINGS && sendlen != 0
        invariant Inv() && hdrs == finalHdrs && !closed && (dataToSend == 0 || dataToSend == 1)
        invariant len == pcb.sndbuf && |pcb.wire| + pcb.sndbuf == old(|pcb.wire| + pcb.sndbuf)
        invariant old(hdrIndex) <= hdrIndex && |pcb.wire| >= |old(pcb.wire)|
        invariant pcb.memory == Plenty || old(Headers()) == [] ==>
                    hdrIndex > old(hdrIndex) || |pcb.wire| > |old(pcb.wire)|
                    || (sendlen == len == old(pcb.sndbuf) && hdrIndex == old(hdrIndex) && Headers() == old(Headers()))
        invariant pcb.memory == Exhausted ==> pcb.wire == old(pcb.wire)
        decreases NUM_FILE_HDR_STRINGS - hdrIndex,
          if hdrIndex < NUM_FILE_HDR_STRINGS then |hdrs[hdrIndex].text| - hdrPos else 0,
          if sendlen != 0 then 1 else 0
      {
        var err, cut;
        err, sendlen, cut := HeaderRound();
        if err == ErrOk && cut {
          dataToSend := 1;
        }
        len := len - sendlen;
      }
      if hdrIndex >= NUM_FILE_HDR_STRINGS && !hasFile {
        closed := true; // http_check_eof without a file handle
        return 3;
      }
      if hdrIndex < NUM_FILE_HDR_STRINGS || !hasFile {
        return 2;
      }
    }

    /** One round of the loop: the current header string is written, and when it is finished
        the next one is due. */
    method HeaderRound() returns (err: Err, sendlen: u16, cut: bool)
      requires Inv() && hdrIndex < NUM_FILE_HDR_STRINGS && hdrs == finalHdrs && pcb.sndbuf != 0
      modifies this`hdrIndex, this`hdrPos, pcb`wire, pcb`sndbuf
      ensures Inv() && pcb.sndbuf == old(pcb.sndbuf) - sendlen && |pcb.wire| == |old(pcb.wire)| + sendlen
      ensures old(hdrIndex) <= hdrIndex
      ensures hdrIndex == old(hdrIndex) < NUM_FILE_HDR_STRINGS ==>
              hdrPos == old(hdrPos) + sendlen <= |hdrs[hdrIndex].text|
      ensures pcb.memory == Plenty || old(Headers()) == [] ==> hdrIndex > old(hdrIndex) || sendlen > 0
      ensures pcb.memory == Exhausted ==> pcb.wire == old(pcb.wire)
    {
      hide FileSender.Valid, FileSender.Pending, FileSender.Resting, WithLength, Digits;
      hide HeaderText, HeadersSet, HeaderRest;
      HeaderUnderWay(hdrs, hdrIndex);
      RestUnderWay(hdrs, hdrIndex, hdrPos);
      err, sendlen, cut := SendHeaderBytes();
      if hdrPos == |hdrs[hdrIndex].text| {
        NextHeader();
      }
    }

    /** One http_write of the current header string. */
    method SendHeaderBytes() returns (err: Err, sendlen: u16, cut: bool)
      requires Inv() && hdrIndex < NUM_FILE_HDR_STRINGS && hdrs == finalHdrs
      requires pcb.sndbuf != 0
      modifies this`hdrPos, pcb`wire, pcb`sndbuf
      ensures Inv()
      ensures hdrPos == old(hdrPos) + sendlen && pcb.sndbuf == old(pcb.sndbuf) - sendlen
      ensures |pcb.wire| == |old(pcb.wire)| + sendlen
      ensures pcb.memory == Plenty && hdrPos < |hdrs[hdrIndex].text| ==> sendlen > 0
      ensures pcb.memory == Exhausted ==> pcb.wire == old(pcb.wire)
      ensures |pcb.wire| + pcb.sndbuf == old(|pcb.wire| + pcb.sndbuf)
    {
      hide FileSender.Valid, FileSender.Pending, FileSender.Resting, WithLength, Digits;
      hide HeaderText, HeadersSet, HeaderRest;
      HeaderUnderWay(hdrs, hdrIndex);
      var header := hdrs[hdrIndex].text;
      var request := Min(pcb.sndbuf, |header| - hdrPos);
      ghost var at, wire := hdrPos, pcb.wire;
      err, sendlen := pcb.HttpWrite(header[hdrPos..hdrPos + request]);
      cut := sendlen != request;
      hdrPos := hdrPos + sendlen;
      HeaderTaken(hdrs, hdrIndex, at, request, sendlen, wire, body.Pending());
    }

    /** On to the next header string, past those that are NULL. */
    method NextHeader()
      requires Inv() && hdrIndex < NUM_FILE_HDR_STRINGS && hdrs == finalHdrs
      requires hdrPos == |hdrs[hdrIndex].text|
      modifies this`hdrIndex, this`hdrPos
      ensures Inv() && hdrIndex > old(hdrIndex)
    {
      hide FileSender.Valid, FileSender.Pending, FileSender.Resting, WithLength, Digits;
      ghost var rest := HeaderText(hdrs, hdrIndex + 1);
      HeaderSent(hdrs, hdrIndex);
      hide HeaderText, HeaderRest;
      hdrIndex := hdrIndex + 1;
      while hdrIndex < NUM_FILE_HDR_STRINGS && hdrs[hdrIndex] == Null
        invariant old(hdrIndex) < hdrIndex <= NUM_FILE_HDR_STRINGS && HeaderText(hdrs, hdrIndex) == rest
      {
        NullSkipped(hdrs, hdrIndex);
        hdrIndex := hdrIndex + 1;
      }
      hdrPos := 0;
      HeaderStarts(hdrs, hdrIndex);
    }

    /** http_send: headers first, then the file, then the end of the connection. When it
        closes, the client has the whole response exactly if no insert was still to be sent;
        end of file is judged by `left` alone. */
    method Send() returns (dataToSend: nat)
      requires Inv() && !closed && !body.halted && (hdrIndex == NUM_FILE_HDR_STRINGS ==> hasFile)
      modifies this`hdrs, this`hdrIndex, this`hdrPos, this`closed, pcb`wire, pcb`sndbuf, body
      ensures Inv() && (hdrIndex == NUM_FILE_HDR_STRINGS && !closed ==> hasFile)
      ensures hdrIndex < NUM_FILE_HDR_STRINGS ==> dataToSend == 2
      ensures old(hdrIndex) == NUM_FILE_HDR_STRINGS && !closed && !body.halted && |pcb.wire| > |old(pcb.wire)| ==>
                dataToSend == 1
      ensures closed ==> dataToSend == if hasFile then 0 else if old(hdrIndex) < NUM_FILE_HDR_STRINGS then 3 else 0
      ensures |pcb.wire| + pcb.sndbuf == old(|pcb.wire| + pcb.sndbuf)
      ensures body.halted ==> body.isSsi && !TagsFit(body.cfg, body.data, 0)
      ensures closed ==> (pcb.wire == Response() <==> !body.InsertDue())
      ensures closed && body.isSsi ==> TagsFit(body.cfg, body.data, 0)
      ensures closed && !(body.isSsi && EndsInInsert(body.cfg, body.data)) ==> pcb.wire == Response()
      ensures old(hdrIndex) <= hdrIndex <= NUM_FILE_HDR_STRINGS && |pcb.wire| >= |old(pcb.wire)|
      ensures old(body.left) != 0 && !body.halted && !closed ==> body.left != 0
      ensures pcb.memory == Exhausted ==> pcb.wire == old(pcb.wire)
      ensures old(pcb.sndbuf) > 0 && pcb.memory == Plenty && (body.isSsi ==> TagsFit(body.cfg, body.data, 0)) ==>
                closed || hdrIndex > old(hdrIndex) || |pcb.wire| > |old(pcb.wire)|
      ensures old(hdrIndex) < NUM_FILE_HDR_STRINGS && old(pcb.sndbuf) > 0 && old(Headers()) == [] ==>
                hdrIndex > old(hdrIndex) || |pcb.wire| > |old(pcb.wire)|
      ensures (old(hdrIndex) == NUM_FILE_HDR_STRINGS && old(body.left) != 0 && body.isSsi && pcb.memory == Exhausted
               && TagsFit(body.cfg, body.data, 0)) ==> pcb.sndbuf == 0 || body.Done() || body.Blocked()
      ensures (old(hdrIndex) == NUM_FILE_HDR_STRINGS && old(body.left) != 0 && body.isSsi && pcb.memory == Plenty
               && TagsFit(body.cfg, body.data, 0)) ==>
                pcb.sndbuf == 0 || body.Done() || (pcb.maxWrite.Some? && |pcb.wire| > |old(pcb.wire)|)
      ensures !body.halted && hdrIndex == NUM_FILE_HDR_STRINGS ==> (closed <==> body.left == 0)
    {
      hide TagsFit, Deliverable, HeaderRest, HeaderText, WithLength, HeadersSet;
      hide FileSender.SsiValid, FileSender.Pending, FileSender.Resting;
      dataToSend := 0;
      if hdrIndex < NUM_FILE_HDR_STRINGS {
        dataToSend := SendHeaders();
        if dataToSend == 3 || (dataToSend != 1 && hdrIndex < NUM_FILE_HDR_STRINGS) {
          if closed {
            ClosedAt();
          }
          return;
        }
      }
      if body.left == 0 {
        closed := true; // http_check_eof
        ClosedAt();
        return 0;
      }
      var sent := SendBody();
      dataToSend := if sent then 1 else 0;
      if body.halted {
        return;
      }
      if body.left == 0 {
        closed := true;
        ClosedAt();
        return 0;
      }
    }

    /** The choice between the two body senders. */
    method SendBody() returns (sent: bool)
      requires Inv() && hdrIndex == NUM_FILE_HDR_STRINGS && !body.halted
      modifies pcb`wire, pcb`sndbuf, body
      ensures Inv() && |pcb.wire| + pcb.sndbuf == old(|pcb.wire| + pcb.sndbuf)
      ensures |pcb.wire| > |old(pcb.wire)| ==> sent
      ensures body.isSsi && pcb.memory == Plenty && TagsFit(body.cfg, body.data, 0) ==>
                pcb.sndbuf == 0 || body.Done() || (pcb.maxWrite.Some? && |pcb.wire| > |old(pcb.wire)|)
      ensures pcb.memory == Exhausted ==> pcb.wire == old(pcb.wire)
      ensures body.isSsi && pcb.memory == Exhausted && TagsFit(body.cfg, body.data, 0) ==>
                pcb.sndbuf == 0 || body.Done() || body.Blocked()
      ensures |pcb.wire| >= |old(pcb.wire)|
      ensures !body.isSsi && pcb.memory == Plenty && old(body.left) > 0 && old(pcb.sndbuf) > 0 ==>
              |pcb.wire| > |old(pcb.wire)|
      ensures body.halted ==> body.isSsi && !TagsFit(body.cfg, body.data, 0)
    {
      hide TagsFit, Deliverable, HeaderRest, HeaderText, WithLength, HeadersSet;
      hide FileSender.SsiValid, FileSender.SsiBody;
      HeadersGone();
      if body.isSsi {
        sent := body.SendDataSsi();
      } else {
        sent := body.SendDataNonSsi();
      }
      HeadersGone();
    }

    lemma HeadersGone()
      requires HeadersValid() && hdrIndex == NUM_FILE_HDR_STRINGS
      ensures Headers() == []
      ensures forall x: seq<byte> :: x + Headers() == x
    {
    }

    /** At end of file only an insert can be pending. */
    lemma ClosedAt()
      requires Inv() && hdrIndex == NUM_FILE_HDR_STRINGS && body.left == 0
      ensures pcb.wire == Response() <==> !body.InsertDue()
      ensures body.isSsi ==> TagsFit(body.cfg, body.data, 0) && (body.InsertDue() ==> EndsInInsert(body.cfg, body.data))
    {
      body.PendingAtEnd();
      if body.isSsi {
        body.DueAtEnd();
      }
      hide FileSender.Valid, FileSender.Pending, FileSender.Resting;
      HeadersGone();
    }
  }
}
