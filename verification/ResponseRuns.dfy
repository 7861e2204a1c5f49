/**
 * Whole runs of the response sender: any number of calls, any send buffer sizes, any refusals
 * by the stack in between.
 */
module ResponseRuns {
  import opened Prelude
  import opened Bytes
  import opened SsiDocument
  import opened SsiTags
  import opened SsiScan
  import opened TcpOut
  import opened FileSending
  import opened HttpResponse

  /** What the stack allows in one call: room in the send buffer, and memory. */
  datatype Turn = Turn(room: u16, memory: Memory)

  /** The turns with room and memory, in which something can be sent. */
  function Fed(turns: seq<Turn>): (n: nat) {
    if turns == [] then 0
    else
      var last := turns[|turns| - 1];
      Fed(turns[..|turns| - 1]) + if last.room > 0 && last.memory == Plenty then 1 else 0
  }

  /** The whole file, all tags replaced, behind the header strings. */
  ghost function FullResponse(hs: HttpState): (r: seq<byte>) {
    HeaderRest(hs.finalHdrs, hs.firstHdr, 0)
    + if hs.body.isSsi then Expand(hs.body.cfg, hs.body.data, 0) else hs.body.data
  }

  /** The response is what can be delivered of it, which is all of it if the tags fit. */
  lemma ResponseIsPrefix(hs: HttpState)
    ensures hs.Response() <= FullResponse(hs)
    ensures (hs.body.isSsi ==> TagsFit(hs.body.cfg, hs.body.data, 0)) ==> hs.Response() == FullResponse(hs)
  {
    DeliverableIsPrefix(hs.body.cfg, hs.body.data, 0);
  }

  /** Any run, whatever the stack allows and refuses: at every moment the wire holds a prefix of
      the full response, headers first. A run stops early only when the connection has been
      closed or an assertion has failed, which takes a tag that is too long; turns with room and
      memory are never wasted; and when it is closed, the client has the full response unless
      the file ends in an insert. */
  method AnyRun(hs: HttpState, turns: seq<Turn>) returns (done: nat)
    requires hs.Inv() && !hs.closed && !hs.body.halted && (hs.hdrIndex == NUM_FILE_HDR_STRINGS ==> hs.hasFile)
    modifies hs`hdrs, hs`hdrIndex, hs`hdrPos, hs`closed, hs.pcb, hs.body
    ensures hs.Inv() && hs.pcb.wire <= FullResponse(hs)
    ensures hs.hdrIndex < NUM_FILE_HDR_STRINGS ==>
              hs.pcb.wire + hs.Headers() == HeaderRest(hs.finalHdrs, hs.firstHdr, 0)
    ensures done <= |turns| && (done < |turns| ==> hs.closed || hs.body.halted)
    ensures hs.body.halted ==> hs.body.isSsi && !TagsFit(hs.body.cfg, hs.body.data, 0)
    ensures !hs.closed && (hs.body.isSsi ==> TagsFit(hs.body.cfg, hs.body.data, 0)) ==>
              Fed(turns) <= |hs.pcb.wire| - |old(hs.pcb.wire)| + hs.hdrIndex - old(hs.hdrIndex)
    ensures hs.closed ==> (hs.pcb.wire == FullResponse(hs) <==> !hs.body.InsertDue())
    ensures hs.closed && !(hs.body.isSsi && EndsInInsert(hs.body.cfg, hs.body.data)) ==> hs.pcb.wire == FullResponse(hs)
  {
    hide FileSender.Valid, FileSender.Pending, FileSender.Resting, HttpState.HeadersValid, HttpState.Headers;
    hide HeaderRest, TagsFit, Deliverable, Expand, LastInsert, FullResponse, Fed;
    done := 0;
    NoTurns();
    assert turns[..0] == [];
    while done < |turns| && !hs.closed && !hs.body.halted
      invariant done <= |turns| && hs.Inv() && (hs.hdrIndex == NUM_FILE_HDR_STRINGS && !hs.closed ==> hs.hasFile)
      invariant hs.body.halted ==> hs.body.isSsi && !TagsFit(hs.body.cfg, hs.body.data, 0)
      invariant hs.closed ==> (hs.pcb.wire == hs.Response() <==> !hs.body.InsertDue())
      invariant hs.closed && hs.body.isSsi ==> TagsFit(hs.body.cfg, hs.body.data, 0)
      invariant hs.closed && !(hs.body.isSsi && EndsInInsert(hs.body.cfg, hs.body.data)) ==>
              hs.pcb.wire == hs.Response()
      invariant !hs.closed && (hs.body.isSsi ==> TagsFit(hs.body.cfg, hs.body.data, 0)) ==>
                  Fed(turns[..done]) <= |hs.pcb.wire| - |old(hs.pcb.wire)| + hs.hdrIndex - old(hs.hdrIndex)
    {
      FedMore(turns, done);
      hs.pcb.Acked(turns[done].room, turns[done].memory);
      var _ := hs.Send();
      done := done + 1;
    }
    assert turns[..|turns|] == turns;
    PrefixOfConcat(hs.pcb.wire, hs.Headers() + hs.body.Pending(), hs.Response());
    assert hs.pcb.wire + hs.Headers() + hs.body.Pending() == hs.pcb.wire + (hs.Headers() + hs.body.Pending());
    ResponseIsPrefix(hs);
    if hs.hdrIndex < NUM_FILE_HDR_STRINGS {
      SameHead(hs.pcb.wire + hs.Headers(), HeaderRest(hs.finalHdrs, hs.firstHdr, 0), hs.body.Document());
    }
  }

  /** A plain file behind its headers, in plain terms: the client gets a prefix of status, server,
      length, content type and file, and all of it when the connection is closed. There is a length
      exactly for a persistent file of fewer than 1,000,000,000 bytes, and it is the file's. */
  method SendFile(pcb: Pcb, cfg: Config, data: seq<byte>, persistent: bool, status: seq<byte>, server: seq<byte>,
      contentType: seq<byte>, turns: seq<Turn>) returns (closed: bool)
    requires cfg.Valid() && |data| < TWO_32 && pcb.wire == []
    requires |status| <= 0xFFFF && |server| <= 0xFFFF && |contentType| <= 0xFFFF
    modifies pcb
    ensures var length := if persistent && |data| < 1_000_000_000
                          then Ascii("Content-Length: ") + Digits(|data|) + Ascii("\r\n") else [];
      var text := status + server + length + contentType + data;
      pcb.wire <= text && (closed ==> pcb.wire == text) && (!closed ==> Fed(turns) <= |pcb.wire| + 5)
  {
    hide FileSender.Valid, FileSender.Resting, HttpState.HeadersValid, HttpState.Headers;
    hide HeaderRest, Digits, WithLength;
    var body := new FileSender(pcb, cfg, data, false);
    var hs := new HttpState(body, true, persistent, [Str(status), Str(server), Null, Null, Str(contentType)], 0);
    DigitsCount(|data|, 9);
    assert Pow10(9) == 1_000_000_000 by { assert Pow10(5) == 100_000; }
    HeaderOrder(status, server, contentType, hs.addsLength, hs.lengthText);
    var _ := AnyRun(hs, turns);
    FiveStrings(hs);
    closed := hs.closed;
  }

  lemma FiveStrings(hs: HttpState)
    requires hs.Inv()
    ensures hs.hdrIndex <= 5
  {
    hide FileSender.Valid, FileSender.Resting, FileSender.SsiBody, HeadersSet;
  }

  lemma NoTurns()
    ensures Fed([]) == 0
  {
  }

  lemma FedMore(turns: seq<Turn>, n: nat)
    requires n < |turns|
    ensures Fed(turns[..n + 1]) == Fed(turns[..n]) + if turns[n].room > 0 && turns[n].memory == Plenty then 1 else 0
  {
    assert turns[..n + 1][..n] == turns[..n];
  }

  /** For every file that ends in an insert there is a run that closes the connection without
      the end of it: send buffers of one byte do it. Only where tags are not included and the
      insert is a single byte, that byte must be refused once. */
  method Truncate(hs: HttpState, total: nat) returns (refused: bool)
    requires hs.Inv() && !hs.closed && !hs.body.halted && hs.hasFile && hs.body.left > 0
    requires hs.body.isSsi && EndsInInsert(hs.body.cfg, hs.body.data) && TagsFit(hs.body.cfg, hs.body.data, 0)
    requires total == |hs.Response()|
    modifies hs`hdrs, hs`hdrIndex, hs`hdrPos, hs`closed, hs.pcb, hs.body
    ensures hs.Inv() && hs.closed && hs.pcb.wire < FullResponse(hs)
    ensures refused ==> !hs.body.cfg.includeTag && |LastInsert(hs.body.cfg, hs.body.data, 0)| == 1
  {
    hide FileSender.Valid, FileSender.Resting, HttpState.HeadersValid, HttpState.Headers, FileSender.SsiBody;
    hide HeaderRest, TagsFit, Deliverable, Expand, LastInsert, FullResponse;
    refused := false;
    while !hs.closed
      invariant hs.Inv() && !hs.body.halted && (hs.closed || hs.body.left > 0)
      invariant hs.closed ==> |hs.pcb.wire| < total
      invariant refused ==> !hs.body.cfg.includeTag && |LastInsert(hs.body.cfg, hs.body.data, 0)| == 1
      decreases !hs.closed, NUM_FILE_HDR_STRINGS - hs.hdrIndex, total - |hs.pcb.wire|
    {
      hs.body.InsertToCome();
      InsertIsLeft(hs);
      if |hs.pcb.wire| + 1 == total {
        refused := true;
        hs.pcb.Acked(1, Exhausted);
      } else {
        hs.pcb.Acked(1, Plenty);
      }
      var _ := hs.Send();
      if !hs.closed {
        hs.body.InsertToCome();
        InsertIsLeft(hs);
      }
    }
    ResponseIsPrefix(hs);
    PrefixOfConcat(hs.pcb.wire, hs.Headers() + hs.body.Pending(), hs.Response());
    assert hs.pcb.wire + hs.Headers() + hs.body.Pending() == hs.pcb.wire + (hs.Headers() + hs.body.Pending());
  }

  /** What is not on the wire yet is headers and body. */
  lemma InsertIsLeft(hs: HttpState)
    requires hs.Inv() && hs.body.isSsi
    ensures |hs.Response()| == |hs.pcb.wire| + |hs.Headers()| + |hs.body.SsiBody()|
    ensures hs.hdrIndex <= NUM_FILE_HDR_STRINGS && (hs.hdrIndex == NUM_FILE_HDR_STRINGS ==> hs.Headers() == [])
  {
    hide FileSender.Valid, FileSender.Resting, FileSender.SsiBody, HeadersSet;
  }

  lemma PrefixOfConcat(a: seq<byte>, b: seq<byte>, c: seq<byte>)
    ensures a + b == c ==> a <= c
  {
  }

  /** An SSI file is delivered whole by enough calls of any send buffer sizes exactly when
      every tag in it fits; with memory that does not run short. */
  method DeliverFile(f: FileSender, rooms: seq<u16>)
    requires f.isSsi && f.Valid() && f.Resting() && !f.halted && f.Pending() == f.Document()
    requires f.pcb.wire == []
    requires |rooms| > |Deliverable(f.cfg, f.data, 0)| && forall i :: 0 <= i < |rooms| ==> rooms[i] > 0
    modifies f, f.pcb
    ensures f.Valid() && f.pcb.wire <= Expand(f.cfg, f.data, 0)
    ensures f.Done() <==> TagsFit(f.cfg, f.data, 0)
    ensures f.Done() ==> f.pcb.wire == Expand(f.cfg, f.data, 0)
  {
    hide FileSender.Valid, FileSender.Resting, FileSender.SsiBody, TagsFit, Deliverable, Expand;
    ghost var whole := Deliverable(f.cfg, f.data, 0);
    var i := 0;
    while i < |rooms| && !f.Done() && !f.halted
      invariant i <= |rooms| && f.Valid() && f.Resting()
      invariant f.halted ==> !TagsFit(f.cfg, f.data, 0)
      invariant f.pcb.wire + f.SsiBody() == whole
      invariant TagsFit(f.cfg, f.data, 0) && !f.Done() ==> |f.SsiBody()| + i <= |whole|
    {
      f.pcb.Acked(rooms[i], Plenty);
      var _ := f.SendDataSsi();
      i := i + 1;
    }
    PrefixOfConcat(f.pcb.wire, f.SsiBody(), whole);
    DeliverableIsPrefix(f.cfg, f.data, 0);
    if f.Done() {
      f.DoneIsComplete();
    }
  }

  /** On the wire: a file with one tag that fits, sent through send buffers of any sizes, arrives
      with the handler's answer for the name in place of the tag, or the message for an unknown
      name, and behind the tag in a build with INCLUDE_TAG. */
  method DeliverTag(f: FileSender, rooms: seq<u16>, ghost x: seq<byte>, ghost t: nat, ghost pre: seq<byte>,
      ghost name: seq<byte>, ghost post: seq<byte>, ghost y: seq<byte>, ghost insert: seq<byte>)
    requires f.isSsi && f.Valid() && f.Resting() && !f.halted && f.Pending() == f.Document() && f.pcb.wire == []
    requires NoLeadIn(x) && NoLeadIn(y) && IsTag(f.cfg, t, pre, name, post)
    requires f.data == x + Written(t, pre, name, post) + y
    requires var shown := CString(name);
      insert == if f.cfg.handler(shown).Some? then f.cfg.handler(shown).value
                else Ascii("<b>***UNKNOWN TAG ") + shown[..Min(|shown|, f.cfg.maxInsert - 25)] + Ascii("***</b>")
    requires f.cfg.includeTag || |Written(t, pre, name, post)| <= 0xFFFF
    requires |rooms| > |f.data| + f.cfg.maxInsert && forall i :: 0 <= i < |rooms| ==> rooms[i] > 0
    modifies f, f.pcb
    ensures f.Done()
    ensures f.pcb.wire == x + (if f.cfg.includeTag then Written(t, pre, name, post) else []) + insert + y
  {
    InsertFits(f.cfg, CString(name), insert);
    hide FileSender.Resting, FileSender.SsiBody, TagsFit, Deliverable, Expand, Written, CString;
    OneTagReplaced(f.cfg, x, t, pre, name, post, y, insert);
    DeliverableIsPrefix(f.cfg, f.data, 0);
    DeliverFile(f, rooms);
  }

  lemma InsertFits(cfg: Config, shown: seq<byte>, insert: seq<byte>)
    requires cfg.Valid()
    requires insert == if cfg.handler(shown).Some? then cfg.handler(shown).value
                       else Ascii("<b>***UNKNOWN TAG ") + shown[..Min(|shown|, cfg.maxInsert - 25)] + Ascii("***</b>")
    ensures |insert| <= cfg.maxInsert
  {
  }

  /** `<!--#a`, blanks, `-->` */
  function LongTag(blanks: nat): seq<byte> {
    Written(0, [], [0x61], seq(blanks, _ => 0x20))
  }

  /** A tag of 65536 bytes or more stops a build without INCLUDE_TAG, and no other build. */
  lemma LongTagDoesNotFit(cfg: Config, blanks: nat)
    requires cfg.maxName >= 1
    ensures TagsFit(cfg, LongTag(blanks), 0) <==> cfg.includeTag || |LongTag(blanks)| <= 0xFFFF
  {
    var d := LongTag(blanks);
    assert d[0..|d|] == d;
    WrittenTagIsFound(0, [], [0x61], seq(blanks, _ => 0x20), d, 0, cfg.maxName);
    assert TagsFit(cfg, d, |d|);
  }

  /** The file `<!--#a-->`. */
  const ONE_TAG: seq<byte> := [0x3C, 0x21, 0x2D, 0x2D, 0x23, 0x61, 0x2D, 0x2D, 0x3E]

  lemma Halves(a: seq<byte>, b: seq<byte>, c: seq<byte>, d: seq<byte>)
    requires a + b == c + d && |a| == |c|
    ensures a == c && b == d
  {
    assert a == (a + b)[..|a|] && c == (c + d)[..|c|];
    assert b == (a + b)[|a|..] && d == (c + d)[|c|..];
  }

  /** Take a file that is a single tag, and a send buffer that holds just the tag: http_send
      sends it, sees that no file byte is left and closes, and the insert is never sent. */
  method CutShort(cfg: Config, d: seq<byte>, x: byte) returns (hs: HttpState)
    requires cfg.Valid() && cfg.includeTag && 0 < |d| <= 0xFFFF && d[|d| - 1] != x
    requires Deliverable(cfg, d, 0) == d + [x] && TagsFit(cfg, d, 0)
    requires forall k :: 1 <= k < |d| ==> RowFor(d[k]) == None
    ensures fresh(hs) && hs.closed && hs.Response() == d + [x] && hs.pcb.wire == d
  {
    hide FileSender.Valid, FileSender.Resting, HttpState.HeadersValid, HttpState.Headers, MatchTag, TagsFit;
    hide Deliverable, FileSender.SsiBody;
    var pcb := new Pcb(|d|, None, Plenty);
    var body := new FileSender(pcb, cfg, d, true);
    hs := new HttpState(body, true, false, [Null, Null, Null, Null, Null], NUM_FILE_HDR_STRINGS);
    hs.HeadersGone();
    assert hs.Response() == d + [x];
    var _ := hs.Send();
    hs.HeadersGone();
    assert pcb.wire + body.SsiBody() == d + [x];
    assert !body.Done();
    Halves(pcb.wire, body.SsiBody(), d, [x]);
    OnlyInsertLeft(body, x);
  }

  /** The file `<!--#a-->`, with an insert of one `x`, is such a file. */
  method TruncatedResponse(cfg: Config) returns (hs: HttpState)
    requires cfg.Valid() && cfg.includeTag && cfg.maxName >= 1 && InsertFor(cfg, [0x61]) == [0x78]
    ensures fresh(hs) && hs.closed && hs.Response() == ONE_TAG + [0x78] && hs.pcb.wire == ONE_TAG
  {
    hide RowFor;
    OneTagAndInsert(cfg, [0x78]);
    NoOtherTag();
    hs := CutShort(cfg, ONE_TAG, 0x78);
  }

  lemma NoOtherTag()
    ensures forall k :: 1 <= k < |ONE_TAG| ==> RowFor(ONE_TAG[k]) == None
  {
  }

  lemma OneTagAndInsert(cfg: Config, insert: seq<byte>)
    requires cfg.includeTag && cfg.maxName >= 1 && InsertFor(cfg, [0x61]) == insert
    ensures Deliverable(cfg, ONE_TAG, 0) == ONE_TAG + insert && TagsFit(cfg, ONE_TAG, 0)
  {
    hide MatchTag;
    var d := ONE_TAG;
    assert d == Written(0, [], [0x61], []) == d[0..|d|];
    WrittenTagIsFound(0, [], [0x61], [], d, 0, cfg.maxName);
    assert Deliverable(cfg, d, |d|) == [] && TagsFit(cfg, d, |d|);
  }

  /** A file that is one tag: when just the one-byte insert is pending, the file is sent. */
  lemma OnlyInsertLeft(f: FileSender, x: byte)
    requires f.Valid() && f.isSsi && f.cfg.includeTag && f.SsiBody() == [x]
    requires 0 < |f.data| && f.data[|f.data| - 1] != x && |Deliverable(f.cfg, f.data, 0)| > 1
    requires forall k :: 1 <= k < |f.data| ==> RowFor(f.data[k]) == None
    ensures f.left == 0
  {
    hide Deliverable, TagsFit, MatchTag, InName, InLeadOut, InLeadIn;
    var d := f.data;
    assert f.SsiBody()[0] == x;
    if f.tagState == TagSending {
      PlainText(f.cfg, d, f.tagEnd);
    } else if f.tagState == TagNone && f.parsed > 0 {
      PlainText(f.cfg, d, f.parsed);
    }
  }
}
