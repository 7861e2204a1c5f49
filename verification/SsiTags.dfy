/**
 * What the SSI sender of httpd.c is to produce: a whole-tag matcher over the file, and the
 * text of the file with every tag expanded. Nothing here mentions cursors, write calls or
 * the states of the scanner.
 */
module SsiTags {
  import opened Bytes
  import opened Prelude

  /** One row of the table of lead-ins and lead-outs. */
  datatype TagDesc = TagDesc(leadIn: seq<byte>, leadOut: seq<byte>)

  /** `<!--#` with `-->`, and `/` `*#` with `*` `/`. */
  const TAG_DESC: seq<TagDesc> := [
    TagDesc([0x3C, 0x21, 0x2D, 0x2D, 0x23], [0x2D, 0x2D, 0x3E]),
    TagDesc([0x2F, 0x2A, 0x23], [0x2A, 0x2F])
  ]

  /** The build options and the insert handler. The handler sees the tag name as a C string
      and answers None for a name it does not know. */
  datatype Config = Config(includeTag: bool, maxName: nat, maxInsert: nat, handler: seq<byte> -> Option<seq<byte>>) {
    ghost predicate Valid() {
      && maxName <= 0xFF
      && 25 <= maxInsert <= 0xFFFF
      && forall name :: handler(name).Some? ==> |handler(name).value| <= maxInsert
    }
  }

  predicate IsBlank(c: byte) {
    c == 0x20 || c == 0x09 || c == 0x0A || c == 0x0D
  }

  predicate IsNameByte(c: byte, t: nat)
    requires t < |TAG_DESC|
  {
    !IsBlank(c) && c != TAG_DESC[t].leadOut[0]
  }

  ghost predicate AllBlank(d: seq<byte>, lo: nat, hi: nat)
    requires hi <= |d|
  {
    forall k :: lo <= k < hi ==> IsBlank(d[k])
  }

  ghost predicate AllName(d: seq<byte>, lo: nat, hi: nat, t: nat)
    requires hi <= |d| && t < |TAG_DESC|
  {
    forall k :: lo <= k < hi ==> IsNameByte(d[k], t)
  }

  /** The first `n` bytes of `pat` stand at `i`. */
  ghost predicate Stands(d: seq<byte>, i: nat, pat: seq<byte>, n: nat)
    requires n <= |pat|
  {
    i + n <= |d| && forall k :: 0 <= k < n ==> pat[k] == d[i + k]
  }

  /** The row whose lead-in starts with `c`; the rows differ in that byte. */
  function RowFor(c: byte): (t: Option<nat>)
    ensures t.Some? <==> exists k :: 0 <= k < |TAG_DESC| && TAG_DESC[k].leadIn[0] == c
    ensures t.Some? ==> t.value < |TAG_DESC| && TAG_DESC[t.value].leadIn[0] == c
  {
    if c == TAG_DESC[0].leadIn[0] then Some(0) else if c == TAG_DESC[1].leadIn[0] then Some(1) else None
  }

  /** The first position from `i` on that holds no blank. */
  function SkipBlanks(d: seq<byte>, i: nat): (r: nat)
    requires i <= |d|
    ensures i <= r <= |d| && AllBlank(d, i, r)
    ensures r < |d| ==> !IsBlank(d[r])
    decreases |d| - i
  {
    if i == |d| || !IsBlank(d[i]) then i else SkipBlanks(d, i + 1)
  }

  /** The first position from `i` on that holds no byte of a tag name. */
  function NameEnd(d: seq<byte>, i: nat, t: nat): (r: nat)
    requires i <= |d| && t < |TAG_DESC|
    ensures i <= r <= |d| && AllName(d, i, r, t)
    ensures r < |d| ==> !IsNameByte(d[r], t)
    decreases |d| - i
  {
    if i == |d| || !IsNameByte(d[i], t) then i else NameEnd(d, i + 1, t)
  }

  /** How many bytes of `pat` stand at `i`. */
  function Common(d: seq<byte>, i: nat, pat: seq<byte>): (n: nat)
    requires i <= |d|
    ensures n <= |pat| && Stands(d, i, pat, n)
    ensures n < |pat| && i + n < |d| ==> d[i + n] != pat[n]
    decreases |d| - i
  {
    if pat == [] || i == |d| || d[i] != pat[0] then 0 else
      var n := Common(d, i + 1, pat[1..]);
      assert forall k :: 1 <= k < n + 1 ==> pat[k] == pat[1..][k - 1];
      n + 1
  }

  lemma SkipBlanksIs(d: seq<byte>, i: nat, r: nat)
    requires i <= r <= |d| && AllBlank(d, i, r)
    requires r < |d| ==> !IsBlank(d[r])
    ensures SkipBlanks(d, i) == r
  {
  }

  lemma NameEndIs(d: seq<byte>, i: nat, t: nat, r: nat)
    requires i <= r <= |d| && t < |TAG_DESC| && AllName(d, i, r, t)
    ensures NameEnd(d, i, t) >= r
    ensures r == |d| || !IsNameByte(d[r], t) ==> NameEnd(d, i, t) == r
  {
  }

  lemma CommonIs(d: seq<byte>, i: nat, pat: seq<byte>, n: nat)
    requires n <= |pat| && Stands(d, i, pat, n)
    requires n < |pat| && i + n < |d| ==> d[i + n] != pat[n]
    ensures Common(d, i, pat) == n
  {
  }

  /** A tag with its name, text that turned out not to be a tag, or a tag begun and not
      finished when the file ends. Text that is not a tag ends with the byte that ruled the
      tag out, and that byte is not looked at again. */
  datatype Match = Tag(name: seq<byte>, end: nat) | NotTag(resume: nat) | CutOff

  function MatchTag(d: seq<byte>, i: nat, maxName: nat): (m: Match)
    requires i < |d|
    ensures m.Tag? ==> i < m.end <= |d| && 1 <= |m.name| <= maxName
    ensures m.NotTag? ==> i < m.resume <= |d|
  {
    match RowFor(d[i])
    case None => NotTag(i + 1)
    case Some(t) =>
      var k := Common(d, i, TAG_DESC[t].leadIn);
      if k < |TAG_DESC[t].leadIn| then
        if i + k == |d| then CutOff else NotTag(i + k + 1)
      else
        MatchName(d, SkipBlanks(d, i + k), t, maxName)
  }

  /** From the first byte after the lead-in and its blanks. */
  function MatchName(d: seq<byte>, a: nat, t: nat, maxName: nat): (m: Match)
    requires a <= |d| && t < |TAG_DESC| && (a < |d| ==> !IsBlank(d[a]))
    ensures m.Tag? ==> a < m.end <= |d| && 1 <= |m.name| <= maxName
    ensures m.NotTag? ==> a < m.resume <= |d|
  {
    var b := NameEnd(d, a, t);
    if a == |d| then CutOff
    else if b == a then NotTag(a + 1)
    else if b - a > maxName then NotTag(a + maxName + 1)
    else if b == |d| then CutOff
    else MatchLeadOut(d, SkipBlanks(d, b), t, d[a..b])
  }

  function MatchLeadOut(d: seq<byte>, c: nat, t: nat, name: seq<byte>): (m: Match)
    requires c <= |d| && t < |TAG_DESC|
    ensures m.Tag? ==> c < m.end <= |d| && m.name == name
    ensures m.NotTag? ==> c < m.resume <= |d|
  {
    var k := Common(d, c, TAG_DESC[t].leadOut);
    if k < |TAG_DESC[t].leadOut| then
      if c + k == |d| then CutOff else NotTag(c + k + 1)
    else
      Tag(name, c + k)
  }

  /** `<b>***UNKNOWN TAG ` and `***</b>` around an unknown name. */
  const UNKNOWN_TAG1: seq<byte> :=
    [0x3C, 0x62, 0x3E, 0x2A, 0x2A, 0x2A, 0x55, 0x4E, 0x4B, 0x4E, 0x4F, 0x57, 0x4E, 0x20, 0x54, 0x41, 0x47, 0x20]
  const UNKNOWN_TAG2: seq<byte> := [0x2A, 0x2A, 0x2A, 0x3C, 0x2F, 0x62, 0x3E]

  /** The text put in for a tag. */
  function InsertFor(cfg: Config, name: seq<byte>): (s: seq<byte>)
  {
    var shown := CString(name);
    match cfg.handler(shown)
    case Some(insert) => insert
    case None =>
      var room := cfg.maxInsert - |UNKNOWN_TAG1| - |UNKNOWN_TAG2|;
      UNKNOWN_TAG1 + (if 0 <= room < |shown| then shown[..room] else shown) + UNKNOWN_TAG2
  }

  /** The document a client is to receive from position `i` of the file on. */
  function Expand(cfg: Config, d: seq<byte>, i: nat): (r: seq<byte>)
    requires i <= |d|
    decreases |d| - i
  {
    if i == |d| then [] else
      match MatchTag(d, i, cfg.maxName)
      case CutOff => d[i..]
      case NotTag(next) => d[i..next] + Expand(cfg, d, next)
      case Tag(name, end) => (if cfg.includeTag then d[i..end] else []) + InsertFor(cfg, name) + Expand(cfg, d, end)
  }

  /** A tag that the build without INCLUDE_TAG cannot step over: its length does not fit the
      16-bit counter. */
  predicate TooLong(cfg: Config, i: nat, end: nat) {
    !cfg.includeTag && end - i > 0xFFFF
  }

  /** No tag from `i` on is too long. */
  predicate TagsFit(cfg: Config, d: seq<byte>, i: nat)
    requires i <= |d|
    decreases |d| - i
  {
    i == |d| ||
    match MatchTag(d, i, cfg.maxName)
    case CutOff => true
    case NotTag(next) => TagsFit(cfg, d, next)
    case Tag(_, end) => !TooLong(cfg, i, end) && TagsFit(cfg, d, end)
  }

  /** What the code can deliver: the document up to the first tag that is too long. */
  function Deliverable(cfg: Config, d: seq<byte>, i: nat): (r: seq<byte>)
    requires i <= |d|
    decreases |d| - i
  {
    if i == |d| then [] else
      match MatchTag(d, i, cfg.maxName)
      case CutOff => d[i..]
      case NotTag(next) => d[i..next] + Deliverable(cfg, d, next)
      case Tag(name, end) =>
        if TooLong(cfg, i, end) then [] else
          (if cfg.includeTag then d[i..end] else []) + InsertFor(cfg, name) + Deliverable(cfg, d, end)
  }

  /** The insert for the tag that ends the file, if one does; nothing otherwise. */
  function LastInsert(cfg: Config, d: seq<byte>, i: nat): (r: seq<byte>)
    requires i <= |d|
    decreases |d| - i
  {
    if i == |d| then [] else
      match MatchTag(d, i, cfg.maxName)
      case CutOff => []
      case NotTag(next) => LastInsert(cfg, d, next)
      case Tag(name, end) => if end == |d| then InsertFor(cfg, name) else LastInsert(cfg, d, end)
  }

  /** The last thing in the file is a tag with something to put in for it. */
  predicate EndsInInsert(cfg: Config, d: seq<byte>) {
    LastInsert(cfg, d, 0) != []
  }

  /** The insert for the tag from `i` to `end`. */
  ghost predicate Replaces(cfg: Config, d: seq<byte>, i: nat, end: nat, insert: seq<byte>) {
    && i < |d|
    && var m := MatchTag(d, i, cfg.maxName);
       m.Tag? && m.end == end && insert == InsertFor(cfg, m.name)
  }

  lemma TagPassed(cfg: Config, d: seq<byte>, i: nat, end: nat, insert: seq<byte>)
    requires Replaces(cfg, d, i, end, insert)
    ensures i < end <= |d|
    ensures LastInsert(cfg, d, i) == if end == |d| then insert else LastInsert(cfg, d, end)
    ensures TagsFit(cfg, d, i) == (!TooLong(cfg, i, end) && TagsFit(cfg, d, end))
  {
    hide MatchTag;
  }

  lemma TagDelivered(cfg: Config, d: seq<byte>, i: nat, end: nat, insert: seq<byte>)
    requires Replaces(cfg, d, i, end, insert)
    ensures i < end <= |d| && Deliverable(cfg, d, i) ==
      if TooLong(cfg, i, end) then []
      else (if cfg.includeTag then d[i..end] else []) + insert + Deliverable(cfg, d, end)
  {
    hide MatchTag;
  }

  /** The insert at the end of a file is still to come after everything else. */
  lemma {:induction false} InsertComes(cfg: Config, d: seq<byte>, i: nat)
    requires i <= |d| && LastInsert(cfg, d, i) != [] && TagsFit(cfg, d, i)
    ensures |Deliverable(cfg, d, i)| >= |LastInsert(cfg, d, i)| + if cfg.includeTag then |d| - i else 0
    decreases |d| - i
  {
    match MatchTag(d, i, cfg.maxName)
    case CutOff =>
    case NotTag(next) => InsertComes(cfg, d, next);
    case Tag(name, end) =>
      if end < |d| {
        InsertComes(cfg, d, end);
      }
  }

  /** Builds that include tags have no tag that is too long. */
  lemma {:induction false} TagsIncludedFit(cfg: Config, d: seq<byte>, i: nat)
    requires i <= |d| && cfg.includeTag
    ensures TagsFit(cfg, d, i)
    decreases |d| - i
  {
    if i < |d| {
      match MatchTag(d, i, cfg.maxName)
      case CutOff =>
      case NotTag(next) => TagsIncludedFit(cfg, d, next);
      case Tag(name, end) => TagsIncludedFit(cfg, d, end);
    }
  }

  /** The deliverable part is a prefix of the document, and all of it when every tag fits. */
  lemma {:induction false} DeliverableIsPrefix(cfg: Config, d: seq<byte>, i: nat)
    requires i <= |d|
    ensures Deliverable(cfg, d, i) <= Expand(cfg, d, i)
    ensures TagsFit(cfg, d, i) ==> Deliverable(cfg, d, i) == Expand(cfg, d, i)
    decreases |d| - i
  {
    if i < |d| {
      match MatchTag(d, i, cfg.maxName)
      case CutOff =>
      case NotTag(next) => DeliverableIsPrefix(cfg, d, next);
      case Tag(name, end) => DeliverableIsPrefix(cfg, d, end);
    }
  }

  /** Text that holds no first byte of a lead-in goes out as it is. */
  lemma {:induction false} PlainText(cfg: Config, d: seq<byte>, i: nat)
    requires i <= |d| && forall k :: i <= k < |d| ==> RowFor(d[k]) == None
    ensures Deliverable(cfg, d, i) == Expand(cfg, d, i) == d[i..]
    decreases |d| - i
  {
    if i < |d| {
      PlainText(cfg, d, i + 1);
      assert d[i..] == d[i..i + 1] + d[i + 1..];
    }
  }

  /** The written form of a tag: lead-in, blanks, name, blanks, lead-out. */
  function Written(t: nat, pre: seq<byte>, name: seq<byte>, post: seq<byte>): seq<byte>
    requires t < |TAG_DESC|
  {
    TAG_DESC[t].leadIn + pre + name + post + TAG_DESC[t].leadOut
  }

  ghost predicate IsTagText(s: seq<byte>, name: seq<byte>, maxName: nat) {
    && 1 <= |name| <= maxName
    && exists t: nat, pre, post :: t < |TAG_DESC| && s == Written(t, pre, name, post)
         && AllBlank(pre, 0, |pre|) && AllBlank(post, 0, |post|) && AllName(name, 0, |name|, t)
  }

  /** Every written tag is found, wherever it stands and whatever follows it. */
  lemma WrittenTagIsFound(t: nat, pre: seq<byte>, name: seq<byte>, post: seq<byte>, d: seq<byte>, i: nat, maxName: nat)
    requires t < |TAG_DESC| && 1 <= |name| <= maxName
    requires AllBlank(pre, 0, |pre|) && AllBlank(post, 0, |post|) && AllName(name, 0, |name|, t)
    requires i + |Written(t, pre, name, post)| <= |d|
    requires d[i..i + |Written(t, pre, name, post)|] == Written(t, pre, name, post)
    ensures MatchTag(d, i, maxName) == Tag(name, i + |Written(t, pre, name, post)|)
  {
    hide MatchTag, MatchName, MatchLeadOut, AllBlank, AllName, Stands;
    var leadIn, leadOut := TAG_DESC[t].leadIn, TAG_DESC[t].leadOut;
    SplitsAt(d, i, leadIn + pre + name + post, leadOut);
    SplitsAt(d, i, leadIn + pre + name, post);
    SplitsAt(d, i, leadIn + pre, name);
    SplitsAt(d, i, leadIn, pre);
    var a := i + |leadIn| + |pre|;
    var b := a + |name|;
    var c := b + |post|;
    PartsKept(d, i, leadIn, a, pre, t);
    PartsKept(d, a, name, c, post, t);
    PartsKept(d, c, leadOut, c + |leadOut|, [], t);
    LeadOutFound(d, c, t, name);
    NameFound(d, a, t, b, c, maxName);
    LeadInFound(d, i, t, a);
  }

  lemma SplitsAt(d: seq<byte>, i: nat, x: seq<byte>, y: seq<byte>)
    requires i + |x| + |y| <= |d| && d[i..i + |x| + |y|] == x + y
    ensures d[i..i + |x|] == x && d[i + |x|..i + |x| + |y|] == y
  {
    assert d[i..i + |x|] == (x + y)[..|x|];
    assert d[i + |x|..i + |x| + |y|] == (x + y)[|x|..];
  }

  /** What is said of a piece of the file is said of its place in the file. */
  lemma PartsKept(d: seq<byte>, i: nat, x: seq<byte>, j: nat, y: seq<byte>, t: nat)
    requires i + |x| + |y| == j <= |d| && t < |TAG_DESC|
    requires d[i..i + |x|] == x && d[i + |x|..j] == y
    ensures Stands(d, i, x, |x|)
    ensures AllName(x, 0, |x|, t) ==> AllName(d, i, i + |x|, t)
    ensures AllBlank(y, 0, |y|) ==> AllBlank(d, i + |x|, j)
  {
    forall k | 0 <= k < |x| ensures x[k] == d[i + k] {
      assert d[i..i + |x|][k] == d[i + k];
    }
    forall k | i + |x| <= k < j ensures y[k - i - |x|] == d[k] {
      assert d[i + |x|..j][k - i - |x|] == d[k];
    }
    forall k | i <= k < i + |x| ensures x[k - i] == d[k] {
    }
  }

  lemma LeadOutFound(d: seq<byte>, c: nat, t: nat, name: seq<byte>)
    requires t < |TAG_DESC| && Stands(d, c, TAG_DESC[t].leadOut, |TAG_DESC[t].leadOut|)
    ensures MatchLeadOut(d, c, t, name) == Tag(name, c + |TAG_DESC[t].leadOut|)
    ensures !IsBlank(d[c]) && !IsNameByte(d[c], t)
  {
    assert d[c] == TAG_DESC[t].leadOut[0];
    CommonIs(d, c, TAG_DESC[t].leadOut, |TAG_DESC[t].leadOut|);
  }

  lemma NameFound(d: seq<byte>, a: nat, t: nat, b: nat, c: nat, maxName: nat)
    requires t < |TAG_DESC| && a < b <= c < |d| && b - a <= maxName
    requires AllName(d, a, b, t) && AllBlank(d, b, c) && !IsBlank(d[c]) && !IsNameByte(d[c], t)
    ensures !IsBlank(d[a]) && MatchName(d, a, t, maxName) == MatchLeadOut(d, c, t, d[a..b])
  {
    hide MatchLeadOut;
    assert IsNameByte(d[a], t);
    assert b < c ==> IsBlank(d[b]);
    NameEndIs(d, a, t, b);
    SkipBlanksIs(d, b, c);
  }

  lemma LeadInFound(d: seq<byte>, i: nat, t: nat, a: nat)
    requires t < |TAG_DESC| && Stands(d, i, TAG_DESC[t].leadIn, |TAG_DESC[t].leadIn|)
    requires i + |TAG_DESC[t].leadIn| <= a <= |d| && AllBlank(d, i + |TAG_DESC[t].leadIn|, a)
    requires a < |d| ==> !IsBlank(d[a])
    ensures forall maxName :: MatchTag(d, i, maxName) == MatchName(d, a, t, maxName)
  {
    hide MatchName;
    assert d[i] == TAG_DESC[t].leadIn[0];
    CommonIs(d, i, TAG_DESC[t].leadIn, |TAG_DESC[t].leadIn|);
    SkipBlanksIs(d, i + |TAG_DESC[t].leadIn|, a);
  }

  /** Whatever is found is a written tag: with the lemma above, the matcher finds a tag of
      that name and end exactly when the text in between is one. */
  lemma FoundTagIsWritten(d: seq<byte>, i: nat, maxName: nat, name: seq<byte>, end: nat)
    requires i < |d|
    ensures MatchTag(d, i, maxName) == Tag(name, end)
            <==> i <= end <= |d| && IsTagText(d[i..end], name, maxName)
  {
    hide MatchTag;
    if MatchTag(d, i, maxName) == Tag(name, end) {
      FoundTagParts(d, i, maxName);
    }
    if i <= end <= |d| && IsTagText(d[i..end], name, maxName) {
      var t: nat, pre, post :| t < |TAG_DESC| && d[i..end] == Written(t, pre, name, post)
           && AllBlank(pre, 0, |pre|) && AllBlank(post, 0, |post|) && AllName(name, 0, |name|, t);
      WrittenTagIsFound(t, pre, name, post, d, i, maxName);
    }
  }

  lemma FoundTagParts(d: seq<byte>, i: nat, maxName: nat)
    requires i < |d| && MatchTag(d, i, maxName).Tag?
    ensures IsTagText(d[i..MatchTag(d, i, maxName).end], MatchTag(d, i, maxName).name, maxName)
  {
    var m := MatchTag(d, i, maxName);
    var t := RowFor(d[i]).value;
    var leadIn, leadOut := TAG_DESC[t].leadIn, TAG_DESC[t].leadOut;
    var a0 := i + |leadIn|;
    var a := SkipBlanks(d, a0);
    var b := NameEnd(d, a, t);
    var c := SkipBlanks(d, b);
    assert m == Tag(d[a..b], c + |leadOut|);
    WrittenParts(d, i, t, a, b, c);
  }

  lemma WrittenParts(d: seq<byte>, i: nat, t: nat, a: nat, b: nat, c: nat)
    requires t < |TAG_DESC| && i + |TAG_DESC[t].leadIn| <= a <= b <= c
    requires Stands(d, c, TAG_DESC[t].leadOut, |TAG_DESC[t].leadOut|)
    requires Stands(d, i, TAG_DESC[t].leadIn, |TAG_DESC[t].leadIn|)
    ensures d[i..c + |TAG_DESC[t].leadOut|]
            == Written(t, d[i + |TAG_DESC[t].leadIn|..a], d[a..b], d[b..c])
  {
    var leadIn, leadOut := TAG_DESC[t].leadIn, TAG_DESC[t].leadOut;
    assert d[i..i + |leadIn|] == leadIn;
    assert d[c..c + |leadOut|] == leadOut;
    hide *;
    var a0, e := i + |leadIn|, c + |leadOut|;
    FiveSlices(d, i, a0, a, b, c, e);
  }

  lemma FiveSlices(d: seq<byte>, i: nat, a0: nat, a: nat, b: nat, c: nat, e: nat)
    requires i <= a0 <= a <= b <= c <= e <= |d|
    ensures d[i..e] == d[i..a0] + d[a0..a] + d[a..b] + d[b..c] + d[c..e]
  {
    assert d[i..a] == d[i..a0] + d[a0..a];
    assert d[i..b] == d[i..a] + d[a..b];
    assert d[i..c] == d[i..b] + d[b..c];
    assert d[i..e] == d[i..c] + d[c..e];
  }
}
