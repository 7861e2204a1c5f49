/**
 * extract_uri_parameters of httpd.c: the parameter part of a URI is cut into C strings where
 * it stands, by writing zero bytes over the delimiters.
 */
module UriParams {
  import opened Bytes
  import opened Prelude

  const AMP: byte := 0x26
  const EQ: byte := 0x3D
  const SP: byte := 0x20

  datatype Param = Param(name: seq<byte>, value: Option<seq<byte>>)

  /** The first place of `c` in `s`. */
  function IndexOf(s: seq<byte>, c: byte): (r: Option<nat>)
    ensures r.Some? ==> r.value < |s| && s[r.value] == c && forall j :: 0 <= j < r.value ==> s[j] != c
    ensures r == None ==> c !in s
  {
    if s == [] then None
    else if s[0] == c then Some(0)
    else
      match IndexOf(s[1..], c)
      case None => None
      case Some(k) => Some(k + 1)
  }

  /** In `x` followed by `c` and anything, `c` is found behind `x` if `x` has none. */
  lemma IndexBehind(x: seq<byte>, c: byte, y: seq<byte>)
    requires c !in x
    ensures IndexOf(x + [c] + y, c) == Some(|x|)
    ensures (x + [c] + y)[..|x|] == x && (x + [c] + y)[|x| + 1..] == y
  {
    var s := x + [c] + y;
    assert s[|x|] == c;
    assert forall j :: 0 <= j < |x| ==> s[j] == x[j];
    var r := IndexOf(s, c).value;
  }

  function Cut(s: seq<byte>, c: byte): (r: seq<byte>) {
    match IndexOf(s, c)
    case None => s
    case Some(k) => s[..k]
  }

  function ToParam(piece: seq<byte>): (p: Param) {
    match IndexOf(piece, EQ)
    case None => Param(piece, None)
    case Some(k) => Param(piece[..k], Some(piece[k + 1..]))
  }

  /** What the parameter text says, read as a value: pieces between ampersands, the last one up
      to a space, each split at its first equals sign; at most `max` of them. */
  function Params(s: seq<byte>, max: nat): (r: seq<Param>)
    ensures |r| <= max
    decreases max
  {
    if max == 0 then [] else
      match IndexOf(s, AMP)
      case None => [ToParam(Cut(s, SP))]
      case Some(k) => [ToParam(s[..k])] + Params(s[k + 1..], max - 1)
  }

  function Printed(p: Param): (s: seq<byte>) {
    match p.value
    case None => p.name
    case Some(v) => p.name + [EQ] + v
  }

  function Joined(ps: seq<Param>): (s: seq<byte>)
    decreases |ps|
  {
    if ps == [] then [] else if |ps| == 1 then Printed(ps[0]) else Printed(ps[0]) + [AMP] + Joined(ps[1..])
  }

  predicate Plain(p: Param) {
    AMP !in p.name && EQ !in p.name && (p.value.Some? ==> AMP !in p.value.value)
  }

  lemma PlainPrinted(p: Param)
    requires Plain(p)
    ensures AMP !in Printed(p) && ToParam(Printed(p)) == p
  {
    if p.value.Some? {
      IndexBehind(p.name, EQ, p.value.value);
    }
  }

  /** Reading undoes printing: parameters without delimiters of their own, printed and followed
      by a space or nothing, are read back, name by name and value by value, as many of them as
      there is room for. Only the last one must not have a space in it. */
  lemma {:induction false} ParamsOfJoined(ps: seq<Param>, tail: seq<byte>, max: nat)
    requires ps != [] && (forall k :: 0 <= k < |ps| ==> Plain(ps[k])) && SP !in Printed(ps[|ps| - 1])
    requires AMP !in tail && (tail != [] ==> tail[0] == SP)
    ensures Params(Joined(ps) + tail, max) == ps[..Min(|ps|, max)]
    decreases |ps|
  {
    hide Params, Joined, Printed, Plain, IndexOf;
    JoinedStep(ps);
    if max == 0 {
      ParamsNone(Joined(ps) + tail);
    } else if |ps| == 1 {
      LastParam(ps[0], tail, max);
      assert ps[..1] == [ps[0]];
    } else {
      var text, rest := Printed(ps[0]) + [AMP], Joined(ps[1..]);
      ParamsOfJoined(ps[1..], tail, max - 1);
      MoreParams(ps[0], rest + tail, max);
      assert text + rest + tail == text + (rest + tail);
      assert ps[..Min(|ps|, max)] == [ps[0]] + ps[1..][..Min(|ps| - 1, max - 1)];
    }
  }

  lemma MoreParams(p: Param, rest: seq<byte>, max: nat)
    requires Plain(p) && max > 0
    ensures Params(Printed(p) + [AMP] + rest, max) == [p] + Params(rest, max - 1)
  {
    PlainPrinted(p);
    hide Printed, ToParam;
    IndexBehind(Printed(p), AMP, rest);
  }

  lemma JoinedStep(ps: seq<Param>)
    requires ps != []
    ensures Joined(ps) == if |ps| == 1 then Printed(ps[0]) else Printed(ps[0]) + [AMP] + Joined(ps[1..])
  {
  }

  lemma LastParam(p: Param, tail: seq<byte>, max: nat)
    requires Plain(p) && SP !in Printed(p) && max > 0 && AMP !in tail && (tail != [] ==> tail[0] == SP)
    ensures Params(Printed(p) + tail, max) == [p]
  {
    PlainPrinted(p);
    hide Printed, ToParam;
    if tail == [] {
      assert Printed(p) + tail == Printed(p);
    } else {
      IndexBehind(Printed(p), SP, tail[1..]);
      assert Printed(p) + tail == Printed(p) + [SP] + tail[1..];
    }
  }

  /** Printed, the parameters are the text but for its tail. */
  ghost predicate PrintedAs(ps: seq<Param>, s: seq<byte>, tail: seq<byte>) {
    && s == Joined(ps) + tail && AMP !in tail && (tail != [] ==> tail[0] == SP)
    && ps != [] && forall k :: 0 <= k < |ps| ==> Plain(ps[k])
  }

  /** Printing undoes reading: with room for all of them, the parameters of any text, printed again,
      are that text up to a space behind its last ampersand. */
  lemma {:induction false} JoinedOfParams(s: seq<byte>, max: nat) returns (tail: seq<byte>)
    requires max > |s|
    ensures PrintedAs(Params(s, max), s, tail)
    decreases |s|
  {
    ParamsStep(s, max);
    hide Params, ToParam, Cut, PrintedAs, IndexOf;
    match IndexOf(s, AMP)
    case None =>
      tail := s[|Cut(s, SP)|..];
      LastAgain(s);
    case Some(k) =>
      tail := JoinedOfParams(s[k + 1..], max - 1);
      MoreAgain(s[..k], Params(s[k + 1..], max - 1), s[k + 1..], tail);
      SplitAround(s, k);
  }

  lemma SplitAround(s: seq<byte>, k: nat)
    requires k < |s|
    ensures s == s[..k] + [s[k]] + s[k + 1..]
  {
  }

  lemma LastAgain(s: seq<byte>)
    requires AMP !in s
    ensures PrintedAs([ToParam(Cut(s, SP))], s, s[|Cut(s, SP)|..])
  {
    PieceAgain(Cut(s, SP));
    JoinedStep([ToParam(Cut(s, SP))]);
    hide ToParam, Plain, Printed, Joined;
  }

  lemma MoreAgain(piece: seq<byte>, rest: seq<Param>, s: seq<byte>, tail: seq<byte>)
    requires AMP !in piece && PrintedAs(rest, s, tail)
    ensures PrintedAs([ToParam(piece)] + rest, piece + [AMP] + s, tail)
  {
    var ps := [ToParam(piece)] + rest;
    PieceAgain(piece);
    JoinedStep(ps);
    assert ps[1..] == rest;
    hide ToParam, Plain, Printed, Joined;
    Bracketed(piece + [AMP], Joined(rest), tail);
  }

  lemma Bracketed(a: seq<byte>, b: seq<byte>, c: seq<byte>)
    ensures a + b + c == a + (b + c)
  {
  }

  lemma PieceAgain(piece: seq<byte>)
    requires AMP !in piece
    ensures Printed(ToParam(piece)) == piece && Plain(ToParam(piece))
  {
  }

  /** The C string at `i` is `t`. */
  ghost predicate StringAt(a: seq<byte>, i: nat, t: seq<byte>) {
    i + |t| < |a| && a[i..i + |t|] == t && a[i + |t|] == 0 && 0 !in t
  }

  /** That is, a C program reads it there. */
  lemma StringAtMeans(a: seq<byte>, i: nat, t: seq<byte>)
    ensures StringAt(a, i, t) <==> i + |t| < |a| && CString(a[i..]) == t
  {
    if StringAt(a, i, t) {
      assert a[i..] == t + a[i + |t|..];
      CStringBehind(t, a[i + |t|..]);
      assert t + [] == t;
    }
    if i + |t| < |a| && CString(a[i..]) == t {
      CStringEnds(a[i..]);
      assert a[i..][..|t|] == a[i..i + |t|];
    }
  }

  lemma {:induction false} CStringEnds(s: seq<byte>)
    ensures CString(s) <= s && 0 !in CString(s) && (|CString(s)| < |s| ==> s[|CString(s)|] == 0)
  {
    if s != [] && s[0] != 0 {
      CStringEnds(s[1..]);
      assert s == [s[0]] + s[1..];
    }
  }

  lemma AllAtMeans(a: seq<byte>, names: seq<nat>, values: seq<Option<nat>>, ps: seq<Param>)
    requires AllAt(a, names, values, ps)
    ensures |names| == |values| == |ps|
    ensures forall k :: 0 <= k < |ps| ==>
              && names[k] < |a| && CString(a[names[k]..]) == ps[k].name
              && (values[k].Some? <==> ps[k].value.Some?)
              && (values[k].Some? ==> values[k].value < |a| && CString(a[values[k].value..]) == ps[k].value.value)
  {
    forall k | 0 <= k < |ps|
      ensures names[k] < |a| && CString(a[names[k]..]) == ps[k].name
      ensures values[k].Some? <==> ps[k].value.Some?
      ensures values[k].Some? ==> values[k].value < |a| && CString(a[values[k].value..]) == ps[k].value.value
    {
      assert ParamAt(a, names[k], values[k], ps[k]);
      StringAtMeans(a, names[k], ps[k].name);
      if values[k].Some? {
        StringAtMeans(a, values[k].value, ps[k].value.value);
      }
    }
  }

  /** strchr in a string that ends at `end`. */
  method StrChr(a: array<byte>, from: nat, ghost end: nat, c: byte) returns (r: Option<nat>)
    requires from <= end < a.Length && a[end] == 0 && 0 !in a[from..end] && c != 0
    ensures r == match IndexOf(a[from..end], c) case None => None case Some(k) => Some(from + k)
  {
    var i := from;
    ghost var s := a[from..end];
    while a[i] != 0 && a[i] != c
      invariant from <= i <= end && forall k :: 0 <= k < i - from ==> s[k] != c
      decreases end - i
    {
      assert s[i - from] == a[i];
      i := i + 1;
    }
    assert i < end ==> s[i - from] == a[i];
    r := if a[i] == c then Some(i) else None;
  }

  /** The strings of one parameter stand at `name` and `value`. */
  ghost predicate ParamAt(a: seq<byte>, name: nat, value: Option<nat>, p: Param) {
    && StringAt(a, name, p.name)
    && (p.value.Some? <==> value.Some?)
    && (value.Some? ==> StringAt(a, value.value, p.value.value))
  }

  lemma StringKept(a: seq<byte>, b: seq<byte>, n: nat, i: nat, t: seq<byte>)
    requires n <= |a| && n <= |b| && a[..n] == b[..n] && StringAt(a[..n], i, t)
    ensures StringAt(b, i, t)
  {
    assert a[..n][i..i + |t|] == b[i..i + |t|];
    assert a[..n][i + |t|] == b[..n][i + |t|];
  }

  lemma ParamKept(a: seq<byte>, b: seq<byte>, n: nat, name: nat, value: Option<nat>, p: Param)
    requires n <= |a| && n <= |b| && a[..n] == b[..n] && ParamAt(a[..n], name, value, p)
    ensures ParamAt(b, name, value, p)
  {
    hide StringAt;
    StringKept(a, b, n, name, p.name);
    if value.Some? {
      StringKept(a, b, n, value.value, p.value.value);
    }
  }

  ghost predicate AllAt(a: seq<byte>, names: seq<nat>, values: seq<Option<nat>>, ps: seq<Param>) {
    |names| == |values| == |ps| && forall k :: 0 <= k < |ps| ==> ParamAt(a, names[k], values[k], ps[k])
  }

  lemma AllKept(a: seq<byte>, b: seq<byte>, n: nat, names: seq<nat>, values: seq<Option<nat>>, ps: seq<Param>)
    requires n <= |a| && n <= |b| && a[..n] == b[..n] && AllAt(a[..n], names, values, ps)
    ensures AllAt(b, names, values, ps)
  {
    hide ParamAt;
    forall k | 0 <= k < |ps| ensures ParamAt(b, names[k], values[k], ps[k]) {
      ParamKept(a, b, n, names[k], values[k], ps[k]);
    }
  }

  /** The equals sign of the piece that ends at `stop` becomes the end of its name. */
  method SplitPair(a: array<byte>, from: nat, ghost stop: nat) returns (value: Option<nat>)
    requires from <= stop < a.Length && a[stop] == 0 && 0 !in a[from..stop]
    modifies a
    ensures ParamAt(a[..stop + 1], from, value, ToParam(old(a[from..stop])))
    ensures forall j :: 0 <= j < a.Length && (j < from || stop <= j) ==> a[j] == old(a[j])
  {
    hide IndexOf;
    ghost var piece := a[from..stop];
    var eq := StrChr(a, from, stop, EQ);
    if eq.Some? {
      a[eq.value] := 0;
      value := Some(eq.value + 1);
      assert a[..stop + 1][from..eq.value] == piece[..eq.value - from];
      assert a[..stop + 1][eq.value + 1..stop] == piece[eq.value - from + 1..];
    } else {
      value := None;
      assert a[..stop + 1][from..stop] == piece;
    }
  }

  /** The piece at `at` is ended at its ampersand, or at its space when it is the last one. */
  method EndPiece(a: array<byte>, at: nat, ghost end: nat) returns (pair: Option<nat>, ghost stop: nat)
    requires at <= end < a.Length && a[end] == 0 && 0 !in a[at..end]
    modifies a
    ensures at <= stop <= end && a[stop] == 0 && stop + 1 <= if pair.Some? then pair.value else end + 1
    ensures match IndexOf(old(a[at..end]), AMP)
            case None => pair == None && a[at..stop] == Cut(old(a[at..end]), SP)
            case Some(k) => pair == Some(stop + 1) && stop == at + k && a[at..stop] == old(a[at..end])[..k]
    ensures 0 !in a[at..stop] && forall j :: 0 <= j < a.Length && j != stop ==> a[j] == old(a[j])
  {
    ghost var s := a[at..end];
    stop := end;
    pair := None;
    var amp := StrChr(a, at, end, AMP);
    if amp.Some? {
      a[amp.value] := 0;
      stop := amp.value;
      pair := Some(amp.value + 1);
    } else {
      var sp := StrChr(a, at, end, SP);
      if sp.Some? {
        a[sp.value] := 0;
        stop := sp.value;
      }
    }
    assert a[at..stop] == s[..stop - at];
    assert s[..|s|] == s;
  }

  /** One round of the loop: the piece at `at` is ended and split. */
  method NextParam(a: array<byte>, at: nat, ghost end: nat)
      returns (pair: Option<nat>, value: Option<nat>, ghost p: Param)
    requires at <= end < a.Length && a[end] == 0 && 0 !in a[at..end]
    modifies a
    ensures match IndexOf(old(a[at..end]), AMP)
            case None => pair == None && p == ToParam(Cut(old(a[at..end]), SP))
            case Some(k) => pair == Some(at + k + 1) && p == ToParam(old(a[at..end])[..k])
    ensures ParamAt(a[..if pair.Some? then pair.value else end + 1], at, value, p)
    ensures forall j :: 0 <= j < a.Length && (j < at || end <= j || (pair.Some? && pair.value <= j)) ==>
            a[j] == old(a[j])
  {
    hide ToParam, ParamAt, Cut;
    ghost var stop;
    pair, stop := EndPiece(a, at, end);
    p := ToParam(a[at..stop]);
    value := SplitPair(a, at, stop);
    ParamKept(a[..], a[..if pair.Some? then pair.value else end + 1], stop + 1, at, value, p);
  }

  /** From `from` on the text stands as it was. */
  ghost predicate Untouched(a: seq<byte>, text: seq<byte>, from: nat) {
    |a| == |text| && forall j :: from <= j < |text| ==> a[j] == text[j]
  }

  lemma SameSlice(a: seq<byte>, text: seq<byte>, at: nat, end: nat)
    requires Untouched(a, text, at) && at <= end < |text|
    ensures |a| == |text| && a[at..end] == text[at..end] && a[end] == text[end]
  {
  }

  lemma UntouchedMore(a: seq<byte>, b: seq<byte>, text: seq<byte>, at: nat, to: nat)
    requires Untouched(a, text, at) && at <= to && |b| == |a| && forall j :: to <= j < |a| ==> b[j] == a[j]
    ensures Untouched(b, text, to)
  {
  }

  /** NextParam after some parameters have been cut off the string `text[..end]`: they stay
      where they are, and the rest of the string is as it was. */
  method CutOne(a: array<byte>, at: nat, ghost end: nat, ghost text: seq<byte>, ghost names: seq<nat>,
      ghost values: seq<Option<nat>>, ghost done: seq<Param>, ghost room: nat)
      returns (pair: Option<nat>, value: Option<nat>, ghost p: Param, ghost limit: nat)
    requires at <= end < a.Length && |text| == a.Length && text[end] == 0 && 0 !in text[at..end] && room > 0
    requires Untouched(a[..], text, at) && AllAt(a[..at], names, values, done)
    modifies a
    ensures limit == (if pair.Some? then pair.value else end + 1) && at < limit && (pair.Some? ==> limit <= end)
    ensures AllAt(a[..limit], names + [at], values + [value], done + [p])
    ensures Params(text[at..end], room) == [p] + if pair.Some? then Params(text[pair.value..end], room - 1) else []
    ensures Untouched(a[..], text, if pair.Some? then pair.value else end)
    ensures pair.Some? ==> 0 !in text[pair.value..end]
  {
    hide ToParam, ParamAt, Cut, StringAt, AllAt, Untouched;
    ghost var was, s := a[..], text[at..end];
    SameSlice(was, text, at, end);
    assert was[at..end] == a[at..end] && was[end] == a[end];
    ParamsStep(s, room);
    hide Params;
    pair, value, p := NextParam(a, at, end);
    limit := if pair.Some? then pair.value else end + 1;
    UntouchedMore(was, a[..], text, at, if pair.Some? then pair.value else end);
    PrefixKept(was, a[..], at, limit, names, values, done);
    AllAtMore(a[..limit], names, values, done, at, value, p);
    if pair.Some? {
      assert s[pair.value - at..] == text[pair.value..end];
    }
  }

  lemma PrefixKept(was: seq<byte>, now: seq<byte>, at: nat, limit: nat, names: seq<nat>, values: seq<Option<nat>>,
      done: seq<Param>)
    requires at <= limit <= |now| == |was| && (forall j :: 0 <= j < at ==> now[j] == was[j])
    requires AllAt(was[..at], names, values, done)
    ensures AllAt(now[..limit], names, values, done)
  {
    hide AllAt;
    assert was[..at] == now[..limit][..at];
    AllKept(was, now[..limit], at, names, values, done);
  }

  /** extract_uri_parameters on the string that ends at `end`: the parameters of the text, as
      C strings in its buffer. No byte outside the string is read or written. */
  method ExtractUriParameters(a: array<byte>, ghost end: nat, max: nat)
      returns (names: seq<nat>, values: seq<Option<nat>>)
    requires end < a.Length && a[end] == 0 && 0 !in a[..end]
    modifies a
    ensures AllAt(a[..], names, values, if end == 0 then [] else Params(old(a[..])[..end], max))
    ensures Untouched(a[..], old(a[..]), end)
  {
    names, values := [], [];
    if a[0] == 0 {
      return;
    }
    names, values := CutAll(a, end, a[..], max);
  }

  /** The loop between two rounds: `done` has been cut off, and what is left of the string will
      give the rest of its parameters. */
  ghost predicate Progress(a: seq<byte>, text: seq<byte>, end: nat, max: nat, pair: Option<nat>, limit: nat,
      names: seq<nat>, values: seq<Option<nat>>, done: seq<Param>) {
    && end < |text| == |a| && text[end] == 0 && limit <= end + 1
    && |names| == |values| == |done| <= max
    && AllAt(a[..limit], names, values, done)
    && match pair
       case None => Params(text[..end], max) == done && Untouched(a, text, end)
       case Some(at) =>
         && at == limit <= end && 0 !in text[at..end] && Untouched(a, text, at)
         && Params(text[..end], max) == done + Params(text[at..end], max - |done|)
  }

  lemma ProgressStart(text: seq<byte>, end: nat, max: nat)
    requires end < |text| && text[end] == 0 && 0 !in text[..end]
    ensures Progress(text, text, end, max, Some(0), 0, [], [], [])
  {
    hide Params;
    assert text[0..end] == text[..end];
    assert Params(text[..end], max) == [] + Params(text[..end], max);
  }

  lemma ProgressStep(text: seq<byte>, end: nat, max: nat, done: seq<Param>, p: Param, at: nat, pair: Option<nat>)
    requires at <= end < |text| && |done| < max && (pair.Some? ==> pair.value <= end)
    requires Params(text[..end], max) == done + Params(text[at..end], max - |done|)
    requires Params(text[at..end], max - |done|) ==
            [p] + if pair.Some? then Params(text[pair.value..end], max - |done| - 1) else []
    ensures Params(text[..end], max) ==
            done + [p] + if pair.Some? then Params(text[pair.value..end], max - |done| - 1) else []
    ensures done + [p] + [] == done + [p]
  {
    hide Params;
    Joins(done, [p], if pair.Some? then Params(text[pair.value..end], max - |done| - 1) else []);
  }

  lemma ProgressEnd(a: seq<byte>, text: seq<byte>, end: nat, max: nat, pair: Option<nat>, limit: nat,
      names: seq<nat>, values: seq<Option<nat>>, done: seq<Param>)
    requires Progress(a, text, end, max, pair, limit, names, values, done) && (|done| == max || pair == None)
    ensures AllAt(a, names, values, Params(text[..end], max)) && Untouched(a, text, end)
  {
    hide AllAt, Untouched;
    AllKept(a[..limit], a, limit, names, values, done) by { assert a[..limit][..limit] == a[..limit]; }
    if pair.Some? {
      ParamsNone(text[pair.value..end]);
      UntouchedMore(a, a, text, pair.value, end);
      assert done + [] == done;
    }
  }

  /** One round of the loop. */
  method Round(a: array<byte>, at: nat, ghost end: nat, ghost text: seq<byte>, ghost max: nat, names: seq<nat>,
      values: seq<Option<nat>>, ghost done: seq<Param>)
      returns (pair: Option<nat>, value: Option<nat>, ghost p: Param, ghost limit: nat)
    requires Progress(a[..], text, end, max, Some(at), at, names, values, done) && |done| < max
    modifies a
    ensures Progress(a[..], text, end, max, pair, limit, names + [at], values + [value], done + [p])
  {
    hide Params, AllAt, Untouched, ParamAt;
    pair, value, p, limit := CutOne(a, at, end, text, names, values, done, max - |done|);
    ProgressStep(text, end, max, done, p, at, pair);
  }

  /** The loop of extract_uri_parameters. */
  method CutAll(a: array<byte>, ghost end: nat, ghost text: seq<byte>, max: nat)
      returns (names: seq<nat>, values: seq<Option<nat>>)
    requires a[..] == text && end < |text| && text[end] == 0 && 0 !in text[..end]
    modifies a
    ensures AllAt(a[..], names, values, Params(text[..end], max))
    ensures Untouched(a[..], text, end)
  {
    names, values := [], [];
    ghost var done: seq<Param>, limit: nat := [], 0;
    var pair := Some(0);
    ProgressStart(text, end, max);
    hide AllAt, Untouched, Params;
    while |names| < max && pair.Some?
      invariant Progress(a[..], text, end, max, pair, limit, names, values, done)
      decreases max - |names|
    {
      var at := pair.value;
      var value;
      ghost var p;
      pair, value, p, limit := Round(a, at, end, text, max, names, values, done);
      names, values, done := names + [at], values + [value], done + [p];
    }
    ProgressEnd(a[..], text, end, max, pair, limit, names, values, done);
  }

  lemma Joins(x: seq<Param>, y: seq<Param>, z: seq<Param>)
    ensures x + y + z == x + (y + z) && x + [] == x
  {
  }

  /** What ParamsStep says. */
  ghost predicate ParamsStepped(s: seq<byte>, max: nat)
    requires max > 0
  {
    match IndexOf(s, AMP)
    case None => Params(s, max) == [ToParam(Cut(s, SP))]
    case Some(k) => Params(s, max) == [ToParam(s[..k])] + Params(s[k + 1..], max - 1)
  }

  lemma ParamsNone(s: seq<byte>)
    ensures Params(s, 0) == []
  {
  }

  lemma AllAtMore(a: seq<byte>, names: seq<nat>, values: seq<Option<nat>>, ps: seq<Param>,
      name: nat, value: Option<nat>, p: Param)
    requires AllAt(a, names, values, ps) && ParamAt(a, name, value, p)
    ensures AllAt(a, names + [name], values + [value], ps + [p])
  {
  }

  lemma ParamsStep(s: seq<byte>, max: nat)
    requires max > 0
    ensures ParamsStepped(s, max)
  {
  }

  lemma {:induction false} JoinedEmpty(ps: seq<Param>)
    requires ps != []
    ensures Joined(ps) == [] <==> ps == [Param([], None)]
  {
    if |ps| == 1 {
      assert Joined(ps) == Printed(ps[0]);
    }
  }

  /** Printing parameters into a buffer and extracting them gives the same parameters as C strings,
      as many as there is room for; only one empty parameter and nothing behind it gives none. */
  method ExtractPrinted(a: array<byte>, ghost ps: seq<Param>, ghost tail: seq<byte>, max: nat)
      returns (names: seq<nat>, values: seq<Option<nat>>)
    requires ps != [] && (forall k :: 0 <= k < |ps| ==> Plain(ps[k])) && SP !in Printed(ps[|ps| - 1])
    requires AMP !in tail && (tail != [] ==> tail[0] == SP)
    requires CStringIn(a[..], Joined(ps) + tail)
    modifies a
    ensures AllAt(a[..], names, values, if ps == [Param([], None)] && tail == [] then [] else ps[..Min(|ps|, max)])
    ensures |names| == |values| == if ps == [Param([], None)] && tail == [] then 0 else Min(|ps|, max)
    ensures forall k :: 0 <= k < |names| ==>
              && names[k] < a.Length && CString(a[names[k]..]) == ps[k].name
              && (values[k].Some? <==> ps[k].value.Some?)
              && (values[k].Some? ==> values[k].value < a.Length && CString(a[values[k].value..]) == ps[k].value.value)
    ensures forall j :: |Joined(ps) + tail| <= j < a.Length ==> a[j] == old(a[j])
  {
    hide AllAt, Untouched, Params, Joined, Plain;
    ParamsOfJoined(ps, tail, max);
    JoinedEmpty(ps);
    ghost var text := Joined(ps) + tail;
    assert a[..|text|] == text;
    names, values := ExtractUriParameters(a, |text|, max);
    AllAtMeans(a[..], names, values, if ps == [Param([], None)] && tail == [] then [] else ps[..Min(|ps|, max)]);
    StillThere(a[..], old(a[..]), |text|);
    forall k | 0 <= k < |names| ensures a[..][names[k]..] == a[names[k]..] {
    }
  }

  lemma StillThere(a: seq<byte>, text: seq<byte>, from: nat)
    requires Untouched(a, text, from)
    ensures |a| == |text| && forall j :: from <= j < |a| ==> a[j] == text[j]
  {
  }

  /** The buffer starts with the C string `text`. */
  ghost predicate CStringIn(a: seq<byte>, text: seq<byte>) {
    |text| < |a| && a[..|text|] == text && a[|text|] == 0 && 0 !in text
  }
}
