/**
 * The body sender of httpd.c for one connection: the file cursor of struct http_state with
 * its struct http_ssi_state, and the functions that write plain files and SSI files.
 * Pointers into the file are positions in `data`. The connection may take any part of what
 * is offered to it, at every call.
 */
module FileSending {
  import opened Bytes
  import opened Prelude
  import opened SsiDocument
  import opened SsiTags
  import opened SsiScan
  import opened TcpOut

  lemma JoinSlices(d: seq<byte>, lo: nat, mid: nat, hi: nat)
    requires lo <= mid <= hi <= |d|
    ensures d[lo..mid] + d[mid..hi] == d[lo..hi]
  {
  }

  /** How far the file text reaches that is pending ahead of anything else. */
  ghost function TextEnd(cfg: Config, d: seq<byte>, state: TagState, file: nat, parsed: nat, start: nat,
      end: nat): (r: nat)
    requires file <= |d| && parsed <= |d| && start <= |d| && end <= |d|
    requires state == TagNone ==> file <= parsed
    requires state == TagSending && cfg.includeTag ==> file <= end
    ensures file <= r <= |d|
  {
    match state
    case TagNone => parsed
    case TagSending => if cfg.includeTag then end else if file <= start then start else file
    case _ => if file <= start then start else |d|
  }

  /** What is pending behind that text. */
  ghost function Behind(cfg: Config, d: seq<byte>, state: TagState, file: nat, parsed: nat, start: nat, end: nat,
      insert: seq<byte>): (r: seq<byte>)
    requires file <= |d| && parsed <= |d| && start <= |d| && end <= |d|
  {
    match state
    case TagNone => Deliverable(cfg, d, parsed)
    case TagSending => if TooLong(cfg, start, end) then [] else insert + Deliverable(cfg, d, end)
    case _ => if file <= start then Deliverable(cfg, d, start) else []
  }

  /** Sending scanned text moves neither. */
  lemma TextStays(cfg: Config, d: seq<byte>, state: TagState, file: nat, to: nat, parsed: nat, start: nat, end: nat,
      insert: seq<byte>)
    requires file <= to <= parsed <= |d| && start <= |d| && end <= |d|
    requires state == TagNone || (state == TagSending && parsed == if cfg.includeTag then end else start)
    ensures TextEnd(cfg, d, state, to, parsed, start, end) == TextEnd(cfg, d, state, file, parsed, start, end) >= to
    ensures Behind(cfg, d, state, to, parsed, start, end, insert)
            == Behind(cfg, d, state, file, parsed, start, end, insert)
  {
    hide Deliverable;
  }

  /** What stands from `i` on decides for the whole file whether its tags fit, and what insert
      it ends in. */
  ghost predicate Decides(cfg: Config, d: seq<byte>, i: nat)
    requires i <= |d|
  {
    TagsFit(cfg, d, 0) == TagsFit(cfg, d, i) && LastInsert(cfg, d, 0) == LastInsert(cfg, d, i)
  }

  lemma EndDecides(cfg: Config, d: seq<byte>)
    ensures Decides(cfg, d, |d|) ==> TagsFit(cfg, d, 0) && LastInsert(cfg, d, 0) == []
  {
  }

  /** Taking bytes into account that turn out to be text changes nothing that is to be sent. */
  lemma TextKeepsRest(cfg: Config, d: seq<byte>, file: nat, start: nat, p: nat)
    requires file <= start < p <= |d| && MatchTag(d, start, cfg.maxName) == NotTag(p)
    ensures d[file..start] + Deliverable(cfg, d, start) == d[file..p] + Deliverable(cfg, d, p)
    ensures Decides(cfg, d, start) ==> Decides(cfg, d, p)
  {
    hide MatchTag;
    JoinSlices(d, file, start, p);
    assert d[file..start] + Deliverable(cfg, d, start) == d[file..start] + d[start..p] + Deliverable(cfg, d, p);
  }

  /** Replacing a tag by its insert changes nothing that is to be sent. */
  lemma TagKeepsRest(cfg: Config, d: seq<byte>, file: nat, start: nat, end: nat, insert: seq<byte>)
    requires file <= start < end <= |d| && Replaces(cfg, d, start, end, insert)
    ensures d[file..start] + Deliverable(cfg, d, start)
            == d[file..if cfg.includeTag then end else start]
               + (if TooLong(cfg, start, end) then [] else insert + Deliverable(cfg, d, end))
    ensures TagsFit(cfg, d, start) == (!TooLong(cfg, start, end) && TagsFit(cfg, d, end))
  {
    hide MatchTag, LastInsert;
    TagPassed(cfg, d, start, end, insert);
    TagDelivered(cfg, d, start, end, insert);
    hide Replaces, TagsFit, InsertFor, Deliverable;
    var tag := if cfg.includeTag then d[start..end] else [];
    JoinSlices(d, file, start, end);
    if !TooLong(cfg, start, end) {
      FourParts(d[file..start], tag, insert, Deliverable(cfg, d, end));
    }
  }

  lemma OpenRest(cfg: Config, d: seq<byte>, file: nat, start: nat)
    requires file <= start < |d| && MatchTag(d, start, cfg.maxName) == CutOff
    ensures d[file..start] + Deliverable(cfg, d, start) == d[file..]
  {
    JoinSlices(d, file, start, |d|);
  }

  lemma FourParts(a: seq<byte>, b: seq<byte>, c: seq<byte>, e: seq<byte>)
    ensures a + (b + c + e) == (a + b) + (c + e) && a + [] == a
  {
  }

  /** The handler sees a C string. */
  lemma SameInsert(cfg: Config, name: seq<byte>, other: seq<byte>)
    requires cfg.Valid() && CString(name) == CString(other)
    ensures InsertFor(cfg, name) == InsertFor(cfg, other)
  {
  }

  /** Bytes moved from the front of what is pending to the back of what is on the wire. */
  lemma SentOff(wire: seq<byte>, d: seq<byte>, lo: nat, mid: nat, hi: nat, rest: seq<byte>)
    requires lo <= mid <= hi <= |d|
    ensures wire + d[lo..mid] + (d[mid..hi] + rest) == wire + (d[lo..hi] + rest)
  {
    JoinSlices(d, lo, mid, hi);
  }

  class FileSender {
    const pcb: Pcb
    const cfg: Config
    const data: seq<byte>
    const isSsi: bool
    /** Position of the first unsent byte, and the number of unsent bytes. */
    var file: nat
    var left: u32
    /** struct http_ssi_state; `tagStarted` exists only without INCLUDE_TAG. */
    var parsed: nat
    var tagStarted: nat
    var tagEnd: nat
    var parseLeft: u32
    var tagIndex: u16
    var tagType: nat
    var tagName: seq<byte>
    var tagInsert: seq<byte>
    var tagState: TagState
    /** An LWIP_ASSERT has failed and the program has stopped. */
    var halted: bool
    /** Where the tag being scanned or sent begins. */
    ghost var start: nat

    /** http_init_file over static file data. */
    constructor (pcb: Pcb, cfg: Config, data: seq<byte>, isSsi: bool)
      requires cfg.Valid() && |data| < TWO_32
      ensures this.pcb == pcb && this.cfg == cfg && this.data == data && this.isSsi == isSsi
      ensures Valid() && Resting() && !halted && file == 0 && Pending() == Document()
    {
      this.pcb, this.cfg, this.data, this.isSsi := pcb, cfg, data, isSsi;
      file, left := 0, |data|;
      parsed, tagStarted, tagEnd, parseLeft := 0, 0, 0, |data|;
      tagIndex, tagType, tagInsert, tagState := 0, 0, [], TagNone;
      tagName := seq(cfg.maxName + 1, _ => 0);
      halted := false;
      start := 0;
    }

    ghost predicate Valid()
      reads this
    {
      && cfg.Valid() && |data| < TWO_32
      && file <= |data| && left == |data| - file
      && (isSsi ==> SsiValid())
    }

    ghost predicate SsiValid()
      reads this
    {
      && parsed <= |data| && tagEnd <= |data| && start <= |data| && |tagName| == cfg.maxName + 1
      && file <= |data|
      && match tagState
         case TagNone =>
           && file <= parsed && parseLeft == |data| - parsed
           && if file < |data| then Decides(cfg, data, parsed) else TagsFit(cfg, data, 0)
         case TagSending => SendingValid()
         case _ =>
           && MidTag(data, tagState, start, parsed, tagType, tagIndex, tagName)
           && start < parsed && parseLeft == |data| - parsed
           && (parseLeft > 0 ==> file <= start)
           && (!cfg.includeTag ==> tagStarted == start)
           && Decides(cfg, data, start)
    }

    /** While a tag is being replaced, `parseLeft` counts from the end of the tag. */
    ghost predicate SendingValid()
      reads this
    {
      && start < tagEnd <= |data| && parseLeft == |data| - tagEnd
      && |tagInsert| <= 0xFFFF && tagIndex <= |tagInsert|
      && parsed == (if cfg.includeTag then tagEnd else start)
      && (!cfg.includeTag ==> tagStarted == start)
      && Decides(cfg, data, start) && Replaces(cfg, data, start, tagEnd, tagInsert)
      && (TooLong(cfg, start, tagEnd) ==> !TagsFit(cfg, data, 0))
      && (!TooLong(cfg, start, tagEnd) ==> TagsFit(cfg, data, 0) == TagsFit(cfg, data, tagEnd))
      && if cfg.includeTag then file <= tagEnd && (file < tagEnd ==> tagIndex == 0)
         else if TooLong(cfg, start, tagEnd) then file <= start || file == start + (tagEnd - start) % TWO_16
         else (file <= start && tagIndex == 0) || file == tagEnd
    }

    ghost function SsiBody(): (r: seq<byte>)
      reads this
      requires Valid() && isSsi
    {
      data[file..SsiTextEnd()] + SsiBehind()
    }

    /** What is still to be sent of the file, tags replaced when it is an SSI file. */
    ghost function Pending(): (r: seq<byte>)
      reads this
      requires Valid()
    {
      if isSsi then SsiBody() else data[file..]
    }

    /** What is to be sent of the file in all. */
    ghost function Document(): (r: seq<byte>) {
      if isSsi then Deliverable(cfg, data, 0) else data
    }

    ghost function SsiTextEnd(): (r: nat)
      reads this
      requires Valid() && isSsi
      ensures file <= r <= |data|
    {
      TextEnd(cfg, data, tagState, file, parsed, start, tagEnd)
    }

    ghost function SsiBehind(): (r: seq<byte>)
      reads this
      requires Valid() && isSsi
    {
      Behind(cfg, data, tagState, file, parsed, start, tagEnd,
             if tagState == TagSending then tagInsert[tagIndex..] else [])
    }

    /** Between calls a tag is half scanned only at the end of the file. */
    predicate Resting()
      reads this
    {
      tagState == TagLeadIn || tagState == TagFound || tagState == TagLeadOut ==> parseLeft == 0
    }

    predicate Done()
      reads this
    {
      left == 0 && parseLeft == 0 && tagState != TagSending
    }

    /** Bytes of file text still to pass before a tag's insert can be sent. */
    ghost function Gap(): nat
      reads this
    {
      if tagState == TagSending && file < tagEnd then tagEnd - file else 0
    }

    ghost function InsertLeft(): nat
      reads this
    {
      if tagState == TagSending && tagIndex < |tagInsert| then |tagInsert| - tagIndex else 0
    }

    /** 1 in the two states that can move on without reading a byte. */
    ghost function Rank(): nat
      reads this
    {
      if tagState == TagLeadIn || tagState == TagSending then 1 else 0
    }

    /** get_tag_insert */
    method GetTagInsert()
      requires cfg.Valid()
      modifies this`tagInsert
      ensures tagInsert == InsertFor(cfg, tagName) && |tagInsert| <= 0xFFFF
      ensures var shown := CString(tagName);
        tagInsert == if cfg.handler(shown).Some? then cfg.handler(shown).value
                     else Ascii("<b>***UNKNOWN TAG ") + shown[..Min(|shown|, cfg.maxInsert - 25)] + Ascii("***</b>")
    {
      InsertIs(cfg, tagName);
      var shown := CString(tagName);
      match cfg.handler(shown)
      case Some(insert) =>
        tagInsert := insert;
      case None =>
        var len := Min(|tagName|, Min(|shown|, cfg.maxInsert - (|UNKNOWN_TAG1| + |UNKNOWN_TAG2|)));
        tagInsert := UNKNOWN_TAG1 + shown[..len] + UNKNOWN_TAG2;
    }

    /** http_write of file bytes from the cursor, with the cursor moved past what was taken. */
    method WriteFile(request: nat) returns (err: Err, len: u16)
      requires request <= 0xFFFF && file + request <= |data| && left == |data| - file && |data| < TWO_32
      modifies this`file, this`left, pcb`wire, pcb`sndbuf
      ensures file == old(file) + len && left == |data| - file && len <= request
      ensures pcb.wire == old(pcb.wire) + data[old(file)..file] && pcb.sndbuf == old(pcb.sndbuf) - len
      ensures err != ErrOk ==> len == 0
      ensures pcb.memory == Plenty ==> err == ErrOk
      ensures pcb.memory == Plenty && pcb.maxWrite == None ==> len == Min(request, old(pcb.sndbuf))
      ensures (err == ErrOk && request > 0 && old(pcb.sndbuf) > 0 ==> len > 0) && (request == 0 ==> err == ErrOk)
      ensures pcb.memory == Exhausted ==> (err == ErrOk <==> request == 0)
    {
      err, len := pcb.HttpWrite(data[file..file + request]);
      PrefixOfSlice(data, file, file + request, len);
      if err == ErrOk {
        file := file + len;
        left := left - len;
      }
    }

    /** case TAG_NONE */
    method ScanText()
      requires Valid() && isSsi && tagState == TagNone && parseLeft > 0
      modifies this`parsed, this`parseLeft, this`tagState, this`tagType, this`tagIndex, this`tagStarted, this`start
      ensures Valid() && SsiBody() == old(SsiBody())
      ensures parseLeft == old(parseLeft) - 1 && tagState != TagSending
    {
      hide Deliverable, TagsFit, InName, InLeadOut, FileSender.SendingValid, Decides, LastInsert;
      ghost var p := parsed;
      var t := 0;
      while t < |TAG_DESC| && data[parsed] != TAG_DESC[t].leadIn[0]
        invariant t <= |TAG_DESC|
        invariant forall k :: 0 <= k < t ==> data[parsed] != TAG_DESC[k].leadIn[0]
      {
        t := t + 1;
      }
      if t < |TAG_DESC| {
        tagType := t;
        tagState := TagLeadIn;
        tagIndex := 1;
        if !cfg.includeTag {
          tagStarted := parsed;
        }
        start := parsed;
      } else {
        assert MatchTag(data, p, cfg.maxName) == NotTag(p + 1);
        TextKeepsRest(cfg, data, file, p, p + 1);
      }
      parseLeft := parseLeft - 1;
      parsed := parsed + 1;
    }

    /** The byte at `parsed` has ruled the tag out: everything up to it is text. */
    method RuleOut()
      requires Valid() && isSsi && tagState != TagNone && tagState != TagSending && parseLeft > 0
      requires MatchTag(data, start, cfg.maxName) == NotTag(parsed + 1)
      modifies this`parsed, this`parseLeft, this`tagState
      ensures Valid() && SsiBody() == old(SsiBody())
      ensures parseLeft == old(parseLeft) - 1 && tagState == TagNone
    {
      hide Deliverable, TagsFit, MatchTag, MidTag, Decides, LastInsert, FileSender.SendingValid;
      TextKeepsRest(cfg, data, file, start, parsed + 1);
      tagState := TagNone;
      parseLeft := parseLeft - 1;
      parsed := parsed + 1;
    }

    /** The byte at `parsed` goes on with the tag. */
    method GoOn(state: TagState, index: u16, name: seq<byte>)
      requires Valid() && isSsi && tagState != TagNone && tagState != TagSending && parseLeft > 0
      requires MidTag(data, state, start, parsed + 1, tagType, index, name) && |name| == |tagName|
      modifies this`parsed, this`parseLeft, this`tagState, this`tagIndex, this`tagName
      ensures Valid() && SsiBody() == old(SsiBody())
      ensures parseLeft == old(parseLeft) - 1 && parsed == old(parsed) + 1
      ensures tagState == state != TagSending && tagIndex == index && tagName == name
    {
      hide Deliverable, TagsFit, MatchTag, InName, InLeadOut, InLeadIn, Decides, LastInsert, FileSender.SendingValid;
      tagState, tagIndex, tagName := state, index, name;
      parseLeft := parseLeft - 1;
      parsed := parsed + 1;
    }

    /** case TAG_LEADIN */
    method ScanLeadIn()
      requires Valid() && isSsi && tagState == TagLeadIn && parseLeft > 0
      modifies this`parsed, this`parseLeft, this`tagState, this`tagIndex, this`tagName
      ensures Valid() && SsiBody() == old(SsiBody())
      ensures parseLeft < old(parseLeft) || (parseLeft == old(parseLeft) && tagState == TagFound)
      ensures tagState != TagSending
    {
      hide Deliverable, TagsFit, MatchTag, InName, InLeadOut, InLeadIn, FileSender.SendingValid, Decides, LastInsert;
      LeadInGoesOn(data, start, parsed, tagType, tagIndex, tagName);
      if tagIndex == |TAG_DESC[tagType].leadIn| {
        tagIndex := 0;
        tagState := TagFound;
      } else if data[parsed] == TAG_DESC[tagType].leadIn[tagIndex] {
        GoOn(TagLeadIn, tagIndex + 1, tagName);
      } else {
        LeadInRuledOut(data, start, parsed, tagType, tagIndex, tagName);
        RuleOut();
      }
    }

    /** case TAG_FOUND */
    method ScanName()
      requires Valid() && isSsi && tagState == TagFound && parseLeft > 0
      modifies this`parsed, this`parseLeft, this`tagState, this`tagIndex, this`tagName
      ensures Valid() && SsiBody() == old(SsiBody())
      ensures parseLeft == old(parseLeft) - 1 && tagState != TagSending
    {
      hide Deliverable, TagsFit, MatchTag, InName, InLeadOut, InLeadIn, FileSender.SendingValid, Decides, LastInsert;
      var c := data[parsed];
      NameGoesOn(data, start, parsed, tagType, tagIndex, tagName);
      if tagIndex == 0 && IsBlank(c) {
        GoOn(TagFound, 0, tagName);
      } else if c == TAG_DESC[tagType].leadOut[0] || IsBlank(c) {
        if tagIndex == 0 {
          NameMissing(data, start, parsed, tagType, tagName);
          RuleOut();
        } else {
          NameTaken(data, start, parsed, tagType, tagIndex, tagName);
          GoOn(TagLeadOut, if c == TAG_DESC[tagType].leadOut[0] then 1 else 0, tagName[tagIndex := 0]);
        }
      } else if tagIndex < cfg.maxName {
        GoOn(TagFound, tagIndex + 1, tagName[tagIndex := c]);
      } else {
        NameTooLong(data, start, parsed, tagType, tagIndex, tagName);
        RuleOut();
      }
    }

    /** case TAG_LEADOUT, up to the byte that completes the tag. */
    method ScanLeadOut()
      requires Valid() && isSsi && tagState == TagLeadOut && parseLeft > 0
      modifies this`parsed, this`parseLeft, this`tagState, this`tagIndex, this`tagName, this`tagInsert, this`tagEnd
      ensures Valid() && SsiBody() == old(SsiBody())
      ensures parseLeft == old(parseLeft) - 1
      ensures tagState == TagSending ==> file <= start && tagIndex == 0
    {
      hide Deliverable, TagsFit, MatchTag, InName, InLeadOut, InLeadIn, FileSender.SendingValid, Decides, LastInsert;
      var c := data[parsed];
      LeadOutGoesOn(data, start, parsed, tagType, tagIndex, tagName);
      if tagIndex == 0 && IsBlank(c) {
        GoOn(TagLeadOut, 0, tagName);
      } else if c == TAG_DESC[tagType].leadOut[tagIndex] {
        if tagIndex + 1 == |TAG_DESC[tagType].leadOut| {
          CompleteTag();
        } else {
          GoOn(TagLeadOut, tagIndex + 1, tagName);
        }
      } else {
        LeadOutRuledOut(data, start, parsed, tagType, tagIndex, tagName);
        RuleOut();
      }
    }

    /** The last byte of a tag: the insert is fetched and the tag is due to be replaced. */
    method CompleteTag()
      requires Valid() && isSsi && tagState == TagLeadOut && parseLeft > 0
      requires data[parsed] == TAG_DESC[tagType].leadOut[tagIndex] && tagIndex + 1 == |TAG_DESC[tagType].leadOut|
      modifies this`parsed, this`parseLeft, this`tagState, this`tagIndex, this`tagInsert, this`tagEnd
      ensures Valid() && SsiBody() == old(SsiBody())
      ensures parseLeft == old(parseLeft) - 1 && tagState == TagSending && file <= start && tagIndex == 0
    {
      hide Deliverable, TagsFit, MatchTag, InName, InLeadOut, InLeadIn, TAG_DESC, CString;
      hide InsertFor, UNKNOWN_TAG1, UNKNOWN_TAG2;
      hide LastInsert;
      LeadOutTaken(data, start, parsed, tagType, tagIndex, tagName);
      hide MidTag;
      SameInsert(cfg, tagName, MatchTag(data, start, cfg.maxName).name);
      parseLeft := parseLeft - 1;
      parsed := parsed + 1;
      GetTagInsert();
      tagIndex := 0;
      tagState := TagSending;
      tagEnd := parsed;
      if !cfg.includeTag {
        parsed := tagStarted;
      }
      assert tagInsert[0..] == tagInsert;
      TagKeepsRest(cfg, data, file, start, tagEnd, tagInsert);
    }

    /** The block that sends file text ahead of a tag's insert, and steps over the tag itself
        when tags are not included. It stands both where a tag is completed and in the
        sending state. */
    method SendBeforeTag() returns (err: Err, len: u16)
      requires Valid() && isSsi && tagState == TagSending && file < tagEnd
      requires !cfg.includeTag ==> file <= start
      modifies this`file, this`left, pcb`wire, pcb`sndbuf
      ensures Valid() && pcb.wire + SsiBody() == old(pcb.wire + SsiBody())
      ensures file == old(file) + len && |pcb.wire| >= |old(pcb.wire)|
      ensures |pcb.wire| + pcb.sndbuf == old(|pcb.wire| + pcb.sndbuf)
      ensures err != ErrOk ==> len == 0 && pcb.wire == old(pcb.wire)
      ensures pcb.memory == Plenty ==> err == ErrOk
      ensures pcb.memory == Exhausted ==> pcb.wire == old(pcb.wire)
      ensures err != ErrOk ==> Blocked()
      ensures err == ErrOk && TagsFit(cfg, data, 0) && len == 0 ==> pcb.sndbuf == 0
    {
      hide Deliverable, TagsFit, MatchTag, MidTag, Decides, LastInsert, Replaces;
      ghost var at, ahead, rest := file, SsiTextEnd(), SsiBehind();
      var atTag := !cfg.includeTag && tagStarted <= file;
      var request := Min((if cfg.includeTag then tagEnd else tagStarted) - file, 0xFFFF);
      err, len := WriteFile(request);
      SentOff(old(pcb.wire), data, at, file, ahead, rest);
      if err == ErrOk && atTag {
        // pretend to have sent the tag, too; the sum is kept in 16 bits
        var skip := ToU16(tagEnd - tagStarted);
        len := ToU16(len + skip);
        file := file + skip;
        left := left - skip;
      }
    }

    /** The rest of case TAG_SENDING: the insert, and the way back to scanning. */
    method SendInsert(lenBefore: u16) returns (err: Err, len: u16)
      requires Valid() && isSsi && tagState == TagSending && file == tagEnd
      modifies this`tagIndex, this`tagState, this`parsed, pcb`wire, pcb`sndbuf
      ensures Valid() && pcb.wire + SsiBody() == old(pcb.wire + SsiBody())
      ensures |pcb.wire| >= |old(pcb.wire)| && |pcb.wire| + pcb.sndbuf == old(|pcb.wire| + pcb.sndbuf)
      ensures err != ErrOk ==> len == 0 && pcb.wire == old(pcb.wire)
      ensures pcb.memory == Plenty ==> err == ErrOk
      ensures pcb.memory == Exhausted ==> pcb.wire == old(pcb.wire)
      ensures err != ErrOk ==> Blocked()
      ensures err == ErrOk && len == 0 && tagState == TagSending ==> pcb.sndbuf == 0
      ensures tagState == TagNone ==> len == lenBefore
      ensures tagState == TagNone || (tagState == TagSending && tagIndex == old(tagIndex) + len)
      ensures tagState == TagSending <==> old(tagIndex) < |tagInsert|
      ensures tagState == TagNone ==> pcb.wire == old(pcb.wire) && pcb.sndbuf == old(pcb.sndbuf) && err == ErrOk
    {
      hide Deliverable, TagsFit, MatchTag, MidTag, LastInsert, Decides, Replaces, FileSender.SsiBody;
      InsertRest();
      if tagIndex < |tagInsert| {
        ghost var at, rest := tagIndex, Deliverable(cfg, data, tagEnd);
        err, len := pcb.HttpWrite(tagInsert[tagIndex..]);
        if err == ErrOk {
          tagIndex := tagIndex + len;
        }
        InsertRest();
        PrefixOfSlice(tagInsert, at, |tagInsert|, len);
        SentOff(old(pcb.wire), tagInsert, at, at + len, |tagInsert|, rest);
      } else {
        err, len := ErrOk, lenBefore;
        InsertPassed();
        tagIndex := 0;
        tagState := TagNone;
        if !cfg.includeTag {
          parsed := tagEnd;
        }
        TextRest();
      }
    }

    /** With everything ahead of the insert sent, the insert is next. */
    lemma InsertRest()
      requires Valid() && isSsi && tagState == TagSending && file == tagEnd
      ensures !TooLong(cfg, start, tagEnd)
      ensures SsiBody() == tagInsert[tagIndex..] + Deliverable(cfg, data, tagEnd)
    {
      hide Deliverable, TagsFit, MatchTag, MidTag, LastInsert, Decides, Replaces;
      assert data[file..SsiTextEnd()] == [];
    }

    /** Once the insert has been sent, the rest of the file decides. */
    lemma InsertPassed()
      requires Valid() && isSsi && tagState == TagSending && file == tagEnd
      ensures if tagEnd < |data| then Decides(cfg, data, tagEnd) else TagsFit(cfg, data, 0)
    {
      hide Deliverable, MatchTag, MidTag, Replaces;
      TagPassed(cfg, data, start, tagEnd, tagInsert);
    }

    lemma TextRest()
      requires Valid() && isSsi && tagState == TagNone && file == parsed
      ensures SsiBody() == Deliverable(cfg, data, parsed)
    {
      hide Deliverable, TagsFit, MatchTag, MidTag, LastInsert, Decides, Replaces;
    }

    /** One round of the sending state: file text ahead of the tag if there is any, and the
        insert otherwise. */
    method SendTag(lenBefore: u16) returns (err: Err, len: u16, dataToSend: bool)
      requires Valid() && isSsi && tagState == TagSending && lenBefore != 0
      modifies this`file, this`left, this`tagIndex, this`tagState, this`parsed, this`halted, pcb`wire, pcb`sndbuf
      ensures Valid() && pcb.wire + SsiBody() == old(pcb.wire + SsiBody())
      ensures |pcb.wire| >= |old(pcb.wire)| && |pcb.wire| + pcb.sndbuf == old(|pcb.wire| + pcb.sndbuf)
      ensures |pcb.wire| > |old(pcb.wire)| ==> dataToSend
      ensures err != ErrOk ==> len == 0
      ensures tagState == TagSending || tagState == TagNone
      ensures halted != old(halted) ==> !TagsFit(cfg, data, 0)
      ensures pcb.memory == Plenty ==> err == ErrOk
      ensures pcb.memory == Exhausted ==> pcb.wire == old(pcb.wire)
      ensures err != ErrOk ==> Blocked()
      ensures err == ErrOk && TagsFit(cfg, data, 0) && len == 0 ==> pcb.sndbuf == 0
      ensures halted || tagState == TagNone || Gap() < old(Gap())
              || (Gap() == old(Gap()) && InsertLeft() < old(InsertLeft()))
              || (Gap() == old(Gap()) && InsertLeft() == old(InsertLeft()) && len == 0)
    {
      hide Deliverable, TagsFit, MatchTag, MidTag, LastInsert, Decides, Replaces, TextEnd, Behind;
      dataToSend := false;
      if file < tagEnd {
        if !cfg.includeTag && tagStarted < file {
          halted := true; // LWIP_ASSERT("hs->started >= hs->file")
          return ErrOk, 0, false;
        }
        err, len := SendBeforeTag();
        dataToSend := err == ErrOk;
      } else {
        err, len := SendInsert(lenBefore);
        dataToSend := err == ErrOk;
      }
    }

    /** One round of the loop of http_send_data_ssi, with room in the send buffer. */
    method Round(lenBefore: u16) returns (err: Err, len: u16, wrote: bool)
      requires Valid() && isSsi && !halted && (tagState == TagSending || parseLeft != 0) && lenBefore != 0
      modifies this`file, this`left, this`parsed, this`tagStarted, this`tagEnd, this`parseLeft, this`tagIndex,
        this`tagType, this`tagName, this`tagInsert, this`tagState, this`halted, this`start, pcb`wire, pcb`sndbuf
      ensures Valid() && pcb.wire + SsiBody() == old(pcb.wire + SsiBody())
      ensures |pcb.wire| >= |old(pcb.wire)| && |pcb.wire| + pcb.sndbuf == old(|pcb.wire| + pcb.sndbuf)
      ensures |pcb.wire| > |old(pcb.wire)| ==> wrote
      ensures halted ==> !TagsFit(cfg, data, 0)
      ensures err != ErrOk ==> len == 0 && Blocked()
      ensures len == 0 || halted ==> Resting()
      ensures pcb.memory == Plenty ==> err == ErrOk
      ensures pcb.memory == Exhausted ==> pcb.wire == old(pcb.wire)
      ensures err == ErrOk && TagsFit(cfg, data, 0) && len == 0 ==> pcb.sndbuf == 0
      ensures halted || Lower(old(parseLeft), old(Rank()), old(Gap()), old(InsertLeft()), len != 0)
    {
      hide Deliverable, TagsFit, MatchTag, MidTag, TextEnd, Behind, FileSender.SsiBody, FileSender.SsiValid;
      err, len, wrote := ErrOk, lenBefore, false;
      match tagState
      case TagNone =>
        ScanText();
      case TagLeadIn =>
        ScanLeadIn();
      case TagFound =>
        ScanName();
      case TagLeadOut =>
        ScanLeadOut();
        if tagState == TagSending && file < tagEnd {
          err, len := SendBeforeTag();
          wrote := err == ErrOk;
        }
      case TagSending =>
        err, len, wrote := SendTag(len);
    }

    /** The measure of the loop is lower than it was with room in the send buffer. */
    ghost predicate Lower(parseLeft0: nat, rank0: nat, gap0: nat, insert0: nat, room: bool)
      reads this
    {
      || parseLeft < parseLeft0
      || (parseLeft == parseLeft0 && Rank() < rank0)
      || (parseLeft == parseLeft0 && Rank() == rank0 && Gap() < gap0)
      || (parseLeft == parseLeft0 && Rank() == rank0 && Gap() == gap0 && InsertLeft() < insert0)
      || (parseLeft == parseLeft0 && Rank() == rank0 && Gap() == gap0 && InsertLeft() == insert0 && !room)
    }

    /** A write has been refused, and what it was to send is still to be sent. */
    predicate Blocked()
      reads this
    {
      file < parsed || (tagState == TagSending && file == tagEnd && tagIndex < |tagInsert|)
    }

    /** http_send_data_ssi. However much the stack takes, at whatever call, what has been sent
        and what is pending together stay the same; the loop ends; and when memory does not
        run short, a call stops only with a full send buffer or with the whole file sent. With
        no memory at all it stops before the first byte that it would send. */
    method SendDataSsi() returns (dataToSend: bool)
      requires Valid() && isSsi && Resting() && !halted
      modifies this`file, this`left, this`parsed, this`tagStarted, this`tagEnd, this`parseLeft, this`tagIndex,
        this`tagType, this`tagName, this`tagInsert, this`tagState, this`halted, this`start, pcb`wire, pcb`sndbuf
      ensures Valid() && Resting() && pcb.wire + SsiBody() == old(pcb.wire + SsiBody())
      ensures |pcb.wire| >= |old(pcb.wire)| && |pcb.wire| + pcb.sndbuf == old(|pcb.wire| + pcb.sndbuf)
      ensures |pcb.wire| > |old(pcb.wire)| ==> dataToSend
      ensures halted ==> !TagsFit(cfg, data, 0)
      ensures pcb.memory == Plenty && TagsFit(cfg, data, 0) ==>
                pcb.sndbuf == 0 || Done() || (pcb.maxWrite.Some? && |pcb.wire| > |old(pcb.wire)|)
      ensures pcb.memory == Exhausted ==> pcb.wire == old(pcb.wire)
      ensures pcb.memory == Exhausted && TagsFit(cfg, data, 0) ==> pcb.sndbuf == 0 || Done() || Blocked()
    {
      hide Deliverable, TagsFit, MatchTag, MidTag, TextEnd, Behind, FileSender.SsiBody, FileSender.SsiValid;
      hide FileSender.Rank, FileSender.Gap, FileSender.InsertLeft;
      var err := ErrOk;
      var len := pcb.sndbuf;
      dataToSend := false;
      if parsed > file {
        err, len := SendParsed();
        dataToSend := err == ErrOk;
        if pcb.sndbuf == 0 {
          return;
        }
      }
      while (tagState == TagSending || parseLeft != 0) && err == ErrOk
        invariant Valid() && !halted && pcb.wire + SsiBody() == old(pcb.wire + SsiBody())
        invariant |pcb.wire| >= |old(pcb.wire)| && |pcb.wire| + pcb.sndbuf == old(|pcb.wire| + pcb.sndbuf)
        invariant |pcb.wire| > |old(pcb.wire)| ==> dataToSend
        invariant (err != ErrOk ==> len == 0 && Blocked()) && (len == 0 ==> Resting())
        invariant pcb.memory == Plenty ==> err == ErrOk
        invariant pcb.memory == Exhausted ==> pcb.wire == old(pcb.wire)
        invariant err == ErrOk && TagsFit(cfg, data, 0) && len == 0 ==> pcb.sndbuf == 0
        decreases parseLeft, Rank(), Gap(), InsertLeft(), if len != 0 then 1 else 0
      {
        if len == 0 {
          return;
        }
        var wrote;
        err, len, wrote := Round(len);
        dataToSend := dataToSend || wrote;
        if halted {
          return;
        }
      }
      if tagState != TagSending {
        var wrote := SendRest(err == ErrOk);
        dataToSend := dataToSend || wrote;
      }
    }

    /** The end of http_send_data_ssi: text that has been scanned is sent. */
    method SendRest(ghost atEnd: bool) returns (wrote: bool)
      requires Valid() && isSsi && Resting() && tagState != TagSending && !halted
      requires if atEnd then parseLeft == 0 else Blocked()
      modifies this`file, this`left, pcb`wire, pcb`sndbuf
      ensures Valid() && pcb.wire + SsiBody() == old(pcb.wire + SsiBody())
      ensures |pcb.wire| >= |old(pcb.wire)| && |pcb.wire| + pcb.sndbuf == old(|pcb.wire| + pcb.sndbuf)
      ensures |pcb.wire| > |old(pcb.wire)| ==> wrote
      ensures pcb.memory == Plenty && atEnd ==>
                pcb.sndbuf == 0 || Done() || (pcb.maxWrite.Some? && |pcb.wire| > |old(pcb.wire)|)
      ensures pcb.memory == Exhausted ==> pcb.wire == old(pcb.wire) && (Done() || Blocked())
    {
      hide Deliverable, TagsFit, MatchTag, MidTag, TextEnd, Behind, FileSender.SsiBody, FileSender.SsiValid;
      ReadToEnd();
      wrote := false;
      if parsed > file {
        var err, len := SendParsed();
        wrote := err == ErrOk;
        ReadToEnd();
      }
    }

    /** Sending file text that has been scanned and not been sent. */
    method SendParsed() returns (err: Err, len: u16)
      requires Valid() && isSsi && file < parsed
      requires Resting()
      modifies this`file, this`left, pcb`wire, pcb`sndbuf
      ensures Valid() && pcb.wire + SsiBody() == old(pcb.wire + SsiBody())
      ensures |pcb.wire| == |old(pcb.wire)| + len && |pcb.wire| + pcb.sndbuf == old(|pcb.wire| + pcb.sndbuf)
      ensures err != ErrOk ==> len == 0 && pcb.wire == old(pcb.wire) && Blocked()
      ensures pcb.memory == Plenty ==> err == ErrOk
      ensures err == ErrOk ==> pcb.sndbuf == 0 || len != 0
      ensures pcb.memory == Plenty && pcb.maxWrite == None ==> pcb.sndbuf == 0 || file == parsed
      ensures pcb.memory == Exhausted ==> err != ErrOk
    {
      hide Deliverable, TagsFit, MatchTag, MidTag, Decides, LastInsert, Replaces, TextEnd, Behind;
      ghost var at, ahead, rest, open := file, SsiTextEnd(), SsiBehind(), tagState != TagNone && tagState != TagSending;
      if open {
        OpenTagRest();
        ahead, rest := |data|, [];
      }
      if tagState == TagNone && parsed == |data| {
        EndDecides(cfg, data);
      }
      err, len := WriteFile(Min(parsed - file, 0xFFFF));
      if open {
        OpenTagRest();
      } else {
        TextStays(cfg, data, tagState, at, file, parsed, start, tagEnd,
                  if tagState == TagSending then tagInsert[tagIndex..] else []);
      }
      SentOff(old(pcb.wire), data, at, file, ahead, rest);
    }

    lemma ReadToEnd()
      requires Valid() && isSsi && tagState != TagSending
      ensures parseLeft == 0 ==> parsed == |data|
      ensures parsed > file || parseLeft > 0 || left == 0
    {
      hide MidTag;
    }

    /** With the file read to its end, an open tag is pending as plain text. */
    lemma OpenTagRest()
      requires Valid() && isSsi && tagState != TagNone && tagState != TagSending && parseLeft == 0
      ensures SsiBody() == data[file..]
    {
      hide MatchTag, TagsFit, MidTag, Deliverable, Decides, FileSender.SendingValid;
      assert parsed == |data|;
      OpenAtEnd(data, tagState, start, tagType, tagIndex, tagName);
      if file <= start {
        OpenRest(cfg, data, file, start);
      }
    }

    /** http_send_data_nonssi */
    method SendDataNonSsi() returns (dataToSend: bool)
      requires Valid() && !isSsi
      modifies this`file, this`left, pcb`wire, pcb`sndbuf
      ensures Valid() && pcb.wire + Pending() == old(pcb.wire + Pending())
      ensures |pcb.wire| >= |old(pcb.wire)| && |pcb.wire| + pcb.sndbuf == old(|pcb.wire| + pcb.sndbuf)
      ensures |pcb.wire| > |old(pcb.wire)| ==> dataToSend
      ensures pcb.memory == Exhausted ==> pcb.wire == old(pcb.wire)
      ensures pcb.memory == Plenty && old(left) > 0 && old(pcb.sndbuf) > 0 ==> |pcb.wire| > |old(pcb.wire)|
    {
      ghost var at := file;
      var err, len := WriteFile(Min(left, 0xFFFF));
      SentOff(old(pcb.wire), data, at, file, |data|, []);
      assert data[at..|data|] + [] == data[at..];
      assert data[file..|data|] + [] == data[file..];
      dataToSend := err == ErrOk;
    }

    /** Part of an insert is still to be sent. */
    predicate InsertDue()
      reads this
    {
      isSsi && tagState == TagSending && tagIndex < |tagInsert|
    }

    /** With no file byte left, nothing is pending but what is left of an insert. */
    lemma PendingAtEnd()
      requires Valid() && left == 0
      ensures Pending() == if InsertDue() then tagInsert[tagIndex..] else []
      ensures isSsi && !InsertDue() && tagState != TagSending ==> Done()
    {
      hide MidTag;
      if isSsi {
        assert Deliverable(cfg, data, |data|) == [];
        hide Deliverable, TagsFit, MatchTag;
        if tagState == TagSending {
          InsertRest();
        }
      }
    }

    /** A file that is done has only tags that fit, and nothing of it is pending. */
    lemma DoneIsComplete()
      requires Valid() && isSsi && Done()
      ensures TagsFit(cfg, data, 0) && SsiBody() == []
    {
      hide MidTag, Replaces, LastInsert;
      PendingAtEnd();
      if tagState != TagNone {
        OpenAtEnd(data, tagState, start, tagType, tagIndex, tagName);
        OpenFits(cfg, data, start);
        hide *;
      }
    }

    /** The end of the file is reached only if all tags fit, and an insert is due there only if
        the file ends in one. */
    lemma DueAtEnd()
      requires Valid() && isSsi && left == 0
      ensures TagsFit(cfg, data, 0) && (InsertDue() ==> EndsInInsert(cfg, data))
    {
      hide MidTag, MatchTag, Deliverable, Replaces;
      if tagState == TagSending {
        TagPassed(cfg, data, start, tagEnd, tagInsert);
      } else if tagState != TagNone {
        OpenAtEnd(data, tagState, start, tagType, tagIndex, tagName);
        OpenFits(cfg, data, start);
      }
    }

    /** While a file that ends in an insert has unsent bytes, that insert is still to be sent,
        and so are the bytes where tags are included. */
    lemma InsertToCome()
      requires Valid() && isSsi && left > 0 && Resting() && EndsInInsert(cfg, data) && TagsFit(cfg, data, 0)
      ensures |SsiBody()| >= |LastInsert(cfg, data, 0)| + if cfg.includeTag then 1 else 0
      ensures Blocked() ==> |SsiBody()| > 1
      ensures !Done()
    {
      hide MidTag, MatchTag, Deliverable, Replaces, LastInsert, TagsFit;
      match tagState
      case TagNone =>
        EndDecides(cfg, data);
        InsertComes(cfg, data, parsed);
      case TagSending =>
        SendingToCome();
      case _ =>
        OpenAtEnd(data, tagState, start, tagType, tagIndex, tagName);
        OpenFits(cfg, data, start);
    }

    lemma SendingToCome()
      requires Valid() && isSsi && left > 0 && tagState == TagSending && EndsInInsert(cfg, data)
      requires TagsFit(cfg, data, 0)
      ensures |SsiBody()| >= |LastInsert(cfg, data, 0)| + if cfg.includeTag then 1 else 0
      ensures Blocked() ==> |SsiBody()| > 1
    {
      hide MidTag, MatchTag, Deliverable, Replaces, LastInsert, TagsFit;
      TagPassed(cfg, data, start, tagEnd, tagInsert);
      if tagEnd < |data| {
        InsertComes(cfg, data, tagEnd);
      }
    }
  }

  /** A tag still open at the end of the file is text. */
  lemma OpenFits(cfg: Config, d: seq<byte>, i: nat)
    requires i < |d| && MatchTag(d, i, cfg.maxName) == CutOff
    ensures TagsFit(cfg, d, i) && LastInsert(cfg, d, i) == []
  {
    hide MatchTag;
  }
}
