/**
 * What the byte-at-a-time scanner knows in the middle of a tag, and what each of its moves
 * says about the whole-tag matcher.
 */
module SsiScan {
  import opened Bytes
  import opened Prelude
  import opened SsiTags

  /** enum tag_check_state */
  datatype TagState = TagNone | TagLeadIn | TagFound | TagLeadOut | TagSending

  /** The scanner began a tag of row `t` at `s`, has taken the bytes before `p` into account,
      and its counter and name buffer stand for what it has seen. */
  ghost predicate MidTag(d: seq<byte>, state: TagState, s: nat, p: nat, t: nat, index: nat, name: seq<byte>) {
    && s < p <= |d| && t < |TAG_DESC| && 0 < |name| && RowFor(d[s]) == Some(t)
    && match state
       case TagLeadIn => InLeadIn(d, s, p, t, index)
       case TagFound => index < |name| && InName(d, s, p, t, index, name)
       case TagLeadOut => InLeadOut(d, s, p, t, index, name)
       case _ => false
  }

  ghost predicate InLeadIn(d: seq<byte>, s: nat, p: nat, t: nat, index: nat)
    requires t < |TAG_DESC|
  {
    1 <= index <= |TAG_DESC[t].leadIn| && p == s + index && Stands(d, s, TAG_DESC[t].leadIn, index)
  }

  ghost predicate InName(d: seq<byte>, s: nat, p: nat, t: nat, index: nat, name: seq<byte>)
    requires p <= |d| && t < |TAG_DESC| && index < |name|
  {
    var a0 := s + |TAG_DESC[t].leadIn|;
    && Stands(d, s, TAG_DESC[t].leadIn, |TAG_DESC[t].leadIn|)
    && a0 <= p - index
    && AllBlank(d, a0, p - index) && AllName(d, p - index, p, t) && name[..index] == d[p - index..p]
  }

  ghost predicate InLeadOut(d: seq<byte>, s: nat, p: nat, t: nat, index: nat, name: seq<byte>)
    requires p <= |d| && t < |TAG_DESC|
  {
    var a0 := s + |TAG_DESC[t].leadIn|;
    && Stands(d, s, TAG_DESC[t].leadIn, |TAG_DESC[t].leadIn|)
    && var (a, b) := NamePart(d, a0, t);
       && a < b < p && b - a < |name| && name[..b - a] == d[a..b] && name[b - a] == 0
       && index < |TAG_DESC[t].leadOut| && b <= p - index
       && AllBlank(d, b, p - index) && Stands(d, p - index, TAG_DESC[t].leadOut, index)
  }

  /** Where the name begins and ends after a lead-in that ends at `a0`. */
  ghost function NamePart(d: seq<byte>, a0: nat, t: nat): (r: (nat, nat))
    requires a0 <= |d| && t < |TAG_DESC|
    ensures a0 <= r.0 <= r.1 <= |d|
  {
    var a := SkipBlanks(d, a0);
    (a, NameEnd(d, a, t))
  }

  lemma LeadInGoesOn(d: seq<byte>, s: nat, p: nat, t: nat, index: nat, name: seq<byte>)
    requires MidTag(d, TagLeadIn, s, p, t, index, name)
    ensures index <= |TAG_DESC[t].leadIn|
    ensures index == |TAG_DESC[t].leadIn| ==> MidTag(d, TagFound, s, p, t, 0, name)
    ensures p < |d| && index < |TAG_DESC[t].leadIn| && d[p] == TAG_DESC[t].leadIn[index] ==>
              MidTag(d, TagLeadIn, s, p + 1, t, index + 1, name)
  {
  }

  lemma LeadInRuledOut(d: seq<byte>, s: nat, p: nat, t: nat, index: nat, name: seq<byte>)
    requires MidTag(d, TagLeadIn, s, p, t, index, name)
    requires p < |d| && index < |TAG_DESC[t].leadIn| && d[p] != TAG_DESC[t].leadIn[index]
    ensures forall maxName :: MatchTag(d, s, maxName) == NotTag(p + 1)
  {
    CommonIs(d, s, TAG_DESC[t].leadIn, index);
  }

  lemma NameGoesOn(d: seq<byte>, s: nat, p: nat, t: nat, index: nat, name: seq<byte>)
    requires MidTag(d, TagFound, s, p, t, index, name) && p < |d|
    ensures index == 0 && IsBlank(d[p]) ==> MidTag(d, TagFound, s, p + 1, t, 0, name)
    ensures index + 1 < |name| && IsNameByte(d[p], t) ==>
              MidTag(d, TagFound, s, p + 1, t, index + 1, name[index := d[p]])
  {
    assert name[index := d[p]][..index + 1] == name[..index] + [d[p]];
  }

  lemma NameMissing(d: seq<byte>, s: nat, p: nat, t: nat, name: seq<byte>)
    requires MidTag(d, TagFound, s, p, t, 0, name)
    requires p < |d| && !IsBlank(d[p]) && d[p] == TAG_DESC[t].leadOut[0]
    ensures forall maxName :: MatchTag(d, s, maxName) == NotTag(p + 1)
  {
    hide MatchTag;
    LeadInFound(d, s, t, p);
    NameEndIs(d, p, t, p);
  }

  lemma NameTooLong(d: seq<byte>, s: nat, p: nat, t: nat, index: nat, name: seq<byte>)
    requires MidTag(d, TagFound, s, p, t, index, name)
    requires p < |d| && index == |name| - 1 && IsNameByte(d[p], t)
    ensures MatchTag(d, s, |name| - 1) == NotTag(p + 1)
  {
    hide MatchTag;
    assert IsNameByte(d[p - index], t);
    LeadInFound(d, s, t, p - index);
    NameEndIs(d, p - index, t, p + 1);
  }

  lemma NameTaken(d: seq<byte>, s: nat, p: nat, t: nat, index: nat, name: seq<byte>)
    requires MidTag(d, TagFound, s, p, t, index, name)
    requires p < |d| && 0 < index && !IsNameByte(d[p], t)
    ensures MidTag(d, TagLeadOut, s, p + 1, t, if d[p] == TAG_DESC[t].leadOut[0] then 1 else 0, name[index := 0])
  {
    assert IsNameByte(d[p - index], t);
    SkipBlanksIs(d, s + |TAG_DESC[t].leadIn|, p - index);
    NameEndIs(d, p - index, t, p);
    assert name[index := 0][..index] == name[..index];
  }

  lemma LeadOutGoesOn(d: seq<byte>, s: nat, p: nat, t: nat, index: nat, name: seq<byte>)
    requires MidTag(d, TagLeadOut, s, p, t, index, name)
    ensures index < |TAG_DESC[t].leadOut|
    ensures p < |d| && index == 0 && IsBlank(d[p]) ==> MidTag(d, TagLeadOut, s, p + 1, t, 0, name)
    ensures p < |d| && index + 1 < |TAG_DESC[t].leadOut| && d[p] == TAG_DESC[t].leadOut[index] ==>
              MidTag(d, TagLeadOut, s, p + 1, t, index + 1, name)
  {
    hide NamePart;
  }

  /** Once the name has ended, the match is settled by the blanks and the lead-out. */
  lemma LeadOutReached(d: seq<byte>, s: nat, p: nat, t: nat, index: nat, name: seq<byte>)
    requires MidTag(d, TagLeadOut, s, p, t, index, name)
    requires index == 0 && p < |d| ==> !IsBlank(d[p])
    ensures var (a, b) := NamePart(d, s + |TAG_DESC[t].leadIn|, t);
            MatchTag(d, s, |name| - 1) == MatchLeadOut(d, p - index, t, d[a..b])
  {
    hide MatchLeadOut;
    var (a, b) := NamePart(d, s + |TAG_DESC[t].leadIn|, t);
    LeadInFound(d, s, t, a);
    assert index > 0 ==> d[p - index] == TAG_DESC[t].leadOut[0];
    SkipBlanksIs(d, b, p - index);
  }

  lemma LeadOutRuledOut(d: seq<byte>, s: nat, p: nat, t: nat, index: nat, name: seq<byte>)
    requires MidTag(d, TagLeadOut, s, p, t, index, name)
    requires p < |d| && d[p] != TAG_DESC[t].leadOut[index] && (index == 0 ==> !IsBlank(d[p]))
    ensures MatchTag(d, s, |name| - 1) == NotTag(p + 1)
  {
    hide MatchTag, MatchName;
    LeadOutReached(d, s, p, t, index, name);
    CommonIs(d, p - index, TAG_DESC[t].leadOut, index);
  }

  lemma LeadOutTaken(d: seq<byte>, s: nat, p: nat, t: nat, index: nat, name: seq<byte>)
    requires MidTag(d, TagLeadOut, s, p, t, index, name)
    requires p < |d| && d[p] == TAG_DESC[t].leadOut[index] && index + 1 == |TAG_DESC[t].leadOut|
    ensures var m := MatchTag(d, s, |name| - 1);
            m.Tag? && m.end == p + 1 && CString(m.name) == CString(name)
  {
    hide MatchTag, MatchName;
    var (a, b) := NamePart(d, s + |TAG_DESC[t].leadIn|, t);
    LeadOutReached(d, s, p, t, index, name);
    CommonIs(d, p - index, TAG_DESC[t].leadOut, index + 1);
    CStringOfPrefix(name, b - a);
  }

  lemma OpenNameAtEnd(d: seq<byte>, s: nat, t: nat, index: nat, name: seq<byte>)
    requires MidTag(d, TagFound, s, |d|, t, index, name)
    ensures MatchTag(d, s, |name| - 1) == CutOff
  {
    hide MatchTag;
    var a := |d| - index;
    assert index > 0 ==> IsNameByte(d[a], t);
    LeadInFound(d, s, t, a);
    NameEndIs(d, a, t, |d|);
  }

  /** A tag still open at the end of the file is text. */
  lemma OpenAtEnd(d: seq<byte>, state: TagState, s: nat, t: nat, index: nat, name: seq<byte>)
    requires MidTag(d, state, s, |d|, t, index, name)
    ensures MatchTag(d, s, |name| - 1) == CutOff
  {
    if state == TagLeadIn {
      CommonIs(d, s, TAG_DESC[t].leadIn, index);
    } else if state == TagFound {
      hide MatchTag;
      OpenNameAtEnd(d, s, t, index, name);
    } else {
      hide MatchTag;
      OpenLeadOutAtEnd(d, s, t, index, name);
    }
  }

  lemma OpenLeadOutAtEnd(d: seq<byte>, s: nat, t: nat, index: nat, name: seq<byte>)
    requires MidTag(d, TagLeadOut, s, |d|, t, index, name)
    ensures MatchTag(d, s, |name| - 1) == CutOff
  {
    hide MatchTag, MatchName;
    LeadOutReached(d, s, |d|, t, index, name);
    CommonIs(d, |d| - index, TAG_DESC[t].leadOut, index);
  }
}
