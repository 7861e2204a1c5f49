/**
 * SSI documents in plain terms: what stands for a tag in the text a client receives, wherever the
 * tag is and whatever follows it.
 */
module SsiDocument {
  import opened Bytes
  import opened Prelude
  import opened SsiTags

  lemma {:induction false} BlanksBehind(a: seq<byte>, b: seq<byte>, i: nat)
    requires i <= |b|
    ensures SkipBlanks(a + b, |a| + i) == |a| + SkipBlanks(b, i)
    decreases |b| - i
  {
    if i < |b| && IsBlank(b[i]) {
      BlanksBehind(a, b, i + 1);
    }
  }

  lemma {:induction false} NameBehind(a: seq<byte>, b: seq<byte>, i: nat, t: nat)
    requires i <= |b| && t < |TAG_DESC|
    ensures NameEnd(a + b, |a| + i, t) == |a| + NameEnd(b, i, t)
    decreases |b| - i
  {
    if i < |b| && IsNameByte(b[i], t) {
      NameBehind(a, b, i + 1, t);
    }
  }

  lemma {:induction false} CommonBehind(a: seq<byte>, b: seq<byte>, i: nat, pat: seq<byte>)
    requires i <= |b|
    ensures Common(a + b, |a| + i, pat) == Common(b, i, pat)
    decreases |pat|
  {
    if pat != [] && i < |b| && b[i] == pat[0] {
      CommonBehind(a, b, i + 1, pat[1..]);
    }
  }

  function Moved(m: Match, n: nat): (r: Match) {
    match m
    case Tag(name, end) => Tag(name, n + end)
    case NotTag(resume) => NotTag(n + resume)
    case CutOff => CutOff
  }

  /** What is matched does not depend on what stands before. */
  lemma MatchBehind(a: seq<byte>, b: seq<byte>, i: nat, maxName: nat)
    requires i < |b|
    ensures MatchTag(a + b, |a| + i, maxName) == Moved(MatchTag(b, i, maxName), |a|)
  {
    hide MatchName, SkipBlanks, Common;
    if RowFor(b[i]).Some? {
      var t := RowFor(b[i]).value;
      CommonBehind(a, b, i, TAG_DESC[t].leadIn);
      var k := Common(b, i, TAG_DESC[t].leadIn);
      if k == |TAG_DESC[t].leadIn| {
        BlanksBehind(a, b, i + k);
        NamePartBehind(a, b, SkipBlanks(b, i + k), t, maxName);
      }
    }
  }

  lemma NamePartBehind(a: seq<byte>, b: seq<byte>, i: nat, t: nat, maxName: nat)
    requires i <= |b| && t < |TAG_DESC| && (i < |b| ==> !IsBlank(b[i]))
    ensures MatchName(a + b, |a| + i, t, maxName) == Moved(MatchName(b, i, t, maxName), |a|)
  {
    hide MatchLeadOut, SkipBlanks, NameEnd;
    NameBehind(a, b, i, t);
    var e := NameEnd(b, i, t);
    BlanksBehind(a, b, e);
    assert (a + b)[|a| + i..|a| + e] == b[i..e];
    LeadOutBehind(a, b, SkipBlanks(b, e), t, b[i..e]);
  }

  lemma LeadOutBehind(a: seq<byte>, b: seq<byte>, i: nat, t: nat, name: seq<byte>)
    requires i <= |b| && t < |TAG_DESC|
    ensures MatchLeadOut(a + b, |a| + i, t, name) == Moved(MatchLeadOut(b, i, t, name), |a|)
  {
    hide Common;
    CommonBehind(a, b, i, TAG_DESC[t].leadOut);
  }

  /** Nor does what a client is to receive. */
  lemma {:induction false} ExpandBehind(cfg: Config, a: seq<byte>, b: seq<byte>, i: nat)
    requires i <= |b|
    ensures Expand(cfg, a + b, |a| + i) == Expand(cfg, b, i)
    ensures TagsFit(cfg, a + b, |a| + i) == TagsFit(cfg, b, i)
    decreases |b| - i
  {
    hide MatchTag, InsertFor;
    if i < |b| {
      MatchBehind(a, b, i, cfg.maxName);
      match MatchTag(b, i, cfg.maxName)
      case CutOff =>
        assert (a + b)[|a| + i..] == b[i..];
      case NotTag(next) =>
        ExpandBehind(cfg, a, b, next);
        assert (a + b)[|a| + i..|a| + next] == b[i..next];
      case Tag(name, end) =>
        ExpandBehind(cfg, a, b, end);
        assert (a + b)[|a| + i..|a| + end] == b[i..end];
    }
  }

  /** Neither `<` nor `/` */
  predicate NoLeadIn(s: seq<byte>) {
    0x3C !in s && 0x2F !in s
  }

  lemma {:induction false} TextAhead(cfg: Config, x: seq<byte>, rest: seq<byte>)
    requires NoLeadIn(x)
    ensures Expand(cfg, x + rest, 0) == x + Expand(cfg, rest, 0)
    ensures TagsFit(cfg, x + rest, 0) == TagsFit(cfg, rest, 0)
    decreases |x|
  {
    if x == [] {
      assert x + rest == rest;
    } else {
      TextAhead(cfg, x[1..], rest);
      ByteAhead(cfg, x[0], x[1..] + rest);
      assert x == [x[0]] + x[1..];
      hide *;
      Joined([x[0]], x[1..], rest);
      Joined([x[0]], x[1..], Expand(cfg, rest, 0));
    }
  }

  lemma ByteAhead(cfg: Config, c: byte, rest: seq<byte>)
    requires NoLeadIn([c])
    ensures Expand(cfg, [c] + rest, 0) == [c] + Expand(cfg, rest, 0)
    ensures TagsFit(cfg, [c] + rest, 0) == TagsFit(cfg, rest, 0)
  {
    var d := [c] + rest;
    assert c in [c] && RowFor(d[0]) == None;
    assert MatchTag(d, 0, cfg.maxName) == NotTag(1) && d[0..1] == [c];
    hide MatchTag;
    ExpandBehind(cfg, [c], rest, 0);
  }

  /** A tag somewhere in a file, ahead of anything. */
  ghost predicate IsTag(cfg: Config, t: nat, pre: seq<byte>, name: seq<byte>, post: seq<byte>) {
    && t < |TAG_DESC| && 1 <= |name| <= cfg.maxName
    && AllBlank(pre, 0, |pre|) && AllBlank(post, 0, |post|) && AllName(name, 0, |name|, t)
  }

  lemma TagAhead(cfg: Config, t: nat, pre: seq<byte>, name: seq<byte>, post: seq<byte>, rest: seq<byte>)
    requires IsTag(cfg, t, pre, name, post)
    ensures var tag := Written(t, pre, name, post);
      && Expand(cfg, tag + rest, 0)
         == (if cfg.includeTag then tag else []) + InsertFor(cfg, name) + Expand(cfg, rest, 0)
      && (TagsFit(cfg, tag + rest, 0) <==> (cfg.includeTag || |tag| <= 0xFFFF) && TagsFit(cfg, rest, 0))
  {
    var tag := Written(t, pre, name, post);
    assert (tag + rest)[0..|tag|] == tag;
    TagNotEmpty(t, pre, name, post);
    hide Written, MatchTag;
    WrittenTagIsFound(t, pre, name, post, tag + rest, 0, cfg.maxName);
    FoundAhead(cfg, tag, rest, name);
  }

  lemma FoundAhead(cfg: Config, tag: seq<byte>, rest: seq<byte>, name: seq<byte>)
    requires tag != [] && MatchTag(tag + rest, 0, cfg.maxName) == Tag(name, |tag|)
    ensures Expand(cfg, tag + rest, 0)
            == (if cfg.includeTag then tag else []) + InsertFor(cfg, name) + Expand(cfg, rest, 0)
    ensures TagsFit(cfg, tag + rest, 0) <==> (cfg.includeTag || |tag| <= 0xFFFF) && TagsFit(cfg, rest, 0)
  {
    hide MatchTag, InsertFor;
    ExpandBehind(cfg, tag, rest, 0);
    assert (tag + rest)[0..|tag|] == tag;
  }

  /** A known tag is replaced by what the handler answers for its name, an unknown one by a message
      with as much of the name as fits, and a build with INCLUDE_TAG leaves the tag ahead of that;
      what stands before and behind does not matter. */
  lemma TagReplaced(cfg: Config, x: seq<byte>, t: nat, pre: seq<byte>, name: seq<byte>, post: seq<byte>,
      rest: seq<byte>, insert: seq<byte>)
    requires cfg.Valid() && NoLeadIn(x) && IsTag(cfg, t, pre, name, post)
    requires var shown := CString(name);
      insert == if cfg.handler(shown).Some? then cfg.handler(shown).value
                else Ascii("<b>***UNKNOWN TAG ") + shown[..Min(|shown|, cfg.maxInsert - 25)] + Ascii("***</b>")
    ensures var tag := Written(t, pre, name, post);
      && Expand(cfg, x + tag + rest, 0) == x + (if cfg.includeTag then tag else []) + insert + Expand(cfg, rest, 0)
      && (TagsFit(cfg, x + tag + rest, 0) <==> (cfg.includeTag || |tag| <= 0xFFFF) && TagsFit(cfg, rest, 0))
  {
    var tag := Written(t, pre, name, post);
    InsertIs(cfg, name);
    TagAhead(cfg, t, pre, name, post, rest);
    hide *;
    TextAhead(cfg, x, tag + rest);
    Joined(x, tag, rest);
    Joined4(x, if cfg.includeTag then tag else [], insert, Expand(cfg, rest, 0));
  }

  lemma Joined(a: seq<byte>, b: seq<byte>, c: seq<byte>)
    ensures a + b + c == a + (b + c)
  {
  }

  lemma Joined4(a: seq<byte>, b: seq<byte>, c: seq<byte>, e: seq<byte>)
    ensures a + b + c + e == a + (b + c + e)
  {
  }

  lemma TagNotEmpty(t: nat, pre: seq<byte>, name: seq<byte>, post: seq<byte>)
    requires t < |TAG_DESC|
    ensures |Written(t, pre, name, post)| > 0
  {
  }

  /** The text put in for a tag. */
  lemma InsertIs(cfg: Config, name: seq<byte>)
    requires cfg.Valid()
    ensures var shown := CString(name);
      InsertFor(cfg, name) ==
        if cfg.handler(shown).Some? then cfg.handler(shown).value
        else Ascii("<b>***UNKNOWN TAG ") + shown[..Min(|shown|, cfg.maxInsert - 25)] + Ascii("***</b>")
  {
    assert UNKNOWN_TAG1 == Ascii("<b>***UNKNOWN TAG ");
    assert UNKNOWN_TAG2 == Ascii("***</b>");
  }

  /** Blanks, and what may stand in the name of a tag of either kind. */
  lemma NameBytes(c: byte)
    ensures IsBlank(c) <==> c in Ascii(" \t\n\r")
    ensures IsNameByte(c, 0) <==> c !in Ascii(" \t\n\r-")
    ensures IsNameByte(c, 1) <==> c !in Ascii(" \t\n\r*")
  {
    var blanks, first, second := Ascii(" \t\n\r"), Ascii(" \t\n\r-"), Ascii(" \t\n\r*");
    assert blanks[0] == 0x20 && blanks[1] == 0x09 && blanks[2] == 0x0A && blanks[3] == 0x0D;
    assert first == blanks + [0x2D] && second == blanks + [0x2A];
  }

  /** The two kinds of tags. */
  lemma TagsWritten(pre: seq<byte>, name: seq<byte>, post: seq<byte>)
    ensures Written(0, pre, name, post) == Ascii("<!--#") + pre + name + post + Ascii("-->")
    ensures Written(1, pre, name, post) == Ascii("/*#") + pre + name + post + Ascii("*/")
  {
    assert TAG_DESC[0].leadIn == Ascii("<!--#") && TAG_DESC[0].leadOut == Ascii("-->");
    assert TAG_DESC[1].leadIn == Ascii("/*#") && TAG_DESC[1].leadOut == Ascii("*/");
  }

  /** A file with one tag. */
  lemma OneTagReplaced(cfg: Config, x: seq<byte>, t: nat, pre: seq<byte>, name: seq<byte>, post: seq<byte>,
      y: seq<byte>, insert: seq<byte>)
    requires cfg.Valid() && NoLeadIn(x) && NoLeadIn(y) && IsTag(cfg, t, pre, name, post)
    requires var shown := CString(name);
      insert == if cfg.handler(shown).Some? then cfg.handler(shown).value
                else Ascii("<b>***UNKNOWN TAG ") + shown[..Min(|shown|, cfg.maxInsert - 25)] + Ascii("***</b>")
    ensures var tag := Written(t, pre, name, post);
      && Expand(cfg, x + tag + y, 0) == x + (if cfg.includeTag then tag else []) + insert + y
      && (TagsFit(cfg, x + tag + y, 0) <==> cfg.includeTag || |tag| <= 0xFFFF)
  {
    TagReplaced(cfg, x, t, pre, name, post, y, insert);
    hide Written, AllBlank, AllName, CString, MatchTag;
    TextAhead(cfg, y, []);
    assert y + [] == y;
  }
}
