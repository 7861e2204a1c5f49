/** Whole runs of the receiving side: any order of callbacks, and requests in any segments. */
module HttpRequestRuns {
  import opened Bytes
  import opened HttpPostHead
  import opened HttpReceive
  import opened HttpRequest
  import opened PbufRefs
  import opened Prelude

  datatype Event =
    | Segment(p: seq<Pbuf>, app: App)
    | Ended
    | Lost

  function Chains(events: seq<Event>): (r: seq<seq<Pbuf>>) {
    if events == [] then []
    else (if events[0].Segment? then [events[0].p] else [[]]) + Chains(events[1..])
  }

  lemma {:induction false} ChainsAt(events: seq<Event>, i: nat)
    requires i < |events|
    ensures |Chains(events)| == |events|
    ensures Chains(events)[i] == if events[i].Segment? then events[i].p else []
  {
    if i > 0 {
      ChainsAt(events[1..], i - 1);
    } else if |events| > 1 {
      ChainsAt(events[1..], 0);
    }
  }

  /** The chains up to `i`, and the next one: no pbuf in two places. */
  lemma NextApart(chains: seq<seq<Pbuf>>, i: nat)
    requires Distinct(Flatten(chains)) && i < |chains|
    ensures Flatten(chains[..i + 1]) == Flatten(chains[..i]) + chains[i]
    ensures Distinct(Flatten(chains[..i]) + chains[i])
    ensures Ids(Flatten(chains[..i])) !! Ids(chains[i]) && Distinct(chains[i])
    ensures Ids(Flatten(chains[..i + 1])) == Ids(Flatten(chains[..i])) + Ids(chains[i])
  {
    var a, b := Flatten(chains[..i]), chains[i];
    assert chains[..i + 1] == chains[..i] + [b];
    FlattenAppend(chains[..i], b);
    FlattenPrefix(chains, i + 1);
    var all := Flatten(chains);
    hide Ids;
    DistinctPrefix(all, a + b);
    assert (a + b)[..|a|] == a && (a + b)[|a|..] == b;
    hide Distinct;
    IdsApart(a + b, |a|);
    SplitAt(a + b, |a|, |a + b|);
    IdsAppend(a, b);
  }

  lemma DistinctPrefix(all: seq<Pbuf>, s: seq<Pbuf>)
    requires Distinct(all) && s <= all
    ensures Distinct(s)
  {
  }

  lemma ArrivingNext(c: Connection, chains: seq<seq<Pbuf>>, i: nat)
    requires Distinct(Flatten(chains)) && i < |chains| && chains[i] != []
    requires c.refs.Keys <= Ids(Flatten(chains[..i])) && c.Valid()
    requires |Content(c.req + chains[i])| < TWO_16
    ensures c.Arriving(chains[i])
    ensures Ids(Flatten(chains[..i + 1])) == Ids(Flatten(chains[..i])) + Ids(chains[i])
  {
    NextApart(chains, i);
    DistinctJoin(c.req, chains[i]);
  }

  lemma DistinctJoin(a: seq<Pbuf>, b: seq<Pbuf>)
    requires Distinct(a) && Distinct(b) && Ids(a) !! Ids(b)
    ensures Distinct(a + b)
  {
    var ab: seq<Pbuf> := a + b;
    forall j, k | 0 <= j < k < |ab| ensures ab[j].id != ab[k].id {
      if j < |a| <= k {
        assert ab[j] in a && ab[k] in b;
        assert ab[j].id in Ids(a) && ab[k].id in Ids(b);
      }
    }
  }

  /** The state between callbacks, after `i` events. */
  ghost predicate Between(c: Connection, chains: seq<seq<Pbuf>>, i: nat, lost: bool)
    requires i <= |chains|
    reads c
  {
    && c.Valid() && c.refs.Keys <= Ids(Flatten(chains[..i])) && (lost ==> c.closed)
    && if c.closed && !lost then !Seen(c.calls).Posting? else Seen(c.calls).Posting? <==> c.left > 0
  }

  /** One callback; a chain that would take the request beyond 16 bits is not delivered. */
  method Callback(c: Connection, event: Event, ghost chains: seq<seq<Pbuf>>, ghost i: nat) returns (lost: bool)
    requires i < |chains| && Between(c, chains, i, false) && !c.closed && Distinct(Flatten(chains))
    requires event.Segment? ==> event.p == chains[i] != []
    modifies c
    ensures Between(c, chains, i + 1, lost) && lost == event.Lost?
    ensures c.Now() == After(c, old(c.Now()), event)
  {
    hide Received, Parse, Visible, Agrees, Connection.Heard;
    hide Connection.InStep, Connection.RefsMatch, Connection.Arriving, Flatten, Content, Ids, Distinct, Seen;
    hide BodyCalls, Answer;
    lost := event.Lost?;
    NextApart(chains, i);
    match event {
      case Segment(p, app) =>
        if |Content(c.req + p)| < TWO_16 {
          ArrivingNext(c, chains, i);
          c.Recv(p, app);
        }
      case Ended =>
        c.CloseConn();
      case Lost =>
        c.Fail();
    }
    c.SeenStates();
  }

  /** A callback on an open connection; there are none after its end. */
  function After(c: Connection, s: Sight, event: Event): (r: Sight) {
    if s.closed then s else
      match event
      case Segment(p, app) => if |Content(s.req + p)| < TWO_16 then Received(c, s, p, app) else s
      case Ended => Sight([], s.left, s.open, true, s.calls + if s.left != 0 then [PostFinished] else [])
      case Lost => Sight([], s.left, s.open, true, s.calls)
  }

  function Life(c: Connection, events: seq<Event>): (r: Sight)
    decreases |events|
  {
    if events == [] then Sight([], 0, false, false, [])
    else After(c, Life(c, events[..|events| - 1]), events[|events| - 1])
  }

  /** The connection was lost while it was open. */
  ghost predicate LostIn(c: Connection, events: seq<Event>, n: nat)
    requires n <= |events|
  {
    exists i :: 0 <= i < n && events[i].Lost? && !Life(c, events[..i]).closed
  }

  lemma LifeNext(c: Connection, events: seq<Event>, n: nat)
    requires n < |events|
    ensures Life(c, events[..n + 1]) == After(c, Life(c, events[..n]), events[n])
  {
    hide After;
    assert events[..n + 1][..n] == events[..n];
  }

  lemma LostNext(c: Connection, events: seq<Event>, n: nat)
    requires n < |events|
    ensures LostIn(c, events, n + 1) <==> LostIn(c, events, n) || (events[n].Lost? && !Life(c, events[..n]).closed)
  {
    hide After, Life;
  }

  /** Any run, with its calls: whatever comes in, whatever the application answers and however the
      connection ends, each accepted POST is finished at most once, and before that it has got
      exactly the bytes behind the head. It is never finished only if the connection was lost. */
  method Run(events: seq<Event>, maxReq: nat, bufSize: nat, queueLen: nat) returns (c: Connection, lost: bool)
    requires Distinct(Flatten(Chains(events)))
    requires forall i :: 0 <= i < |events| && events[i].Segment? ==> events[i].p != []
    ensures c.maxReq == maxReq && c.bufSize == bufSize && c.queueLen == queueLen
    ensures c.Now() == Life(c, events) && (lost <==> LostIn(c, events, |events|))
    ensures c.Valid() && Seen(c.calls) != Broken
    ensures !c.closed || lost ==> Begun(c.calls) == Finished(c.calls) + if c.left > 0 then 1 else 0
    ensures c.closed && !lost ==> Begun(c.calls) == Finished(c.calls)
  {
    c := new Connection(maxReq, bufSize, queueLen);
    lost := false;
    ghost var chains := Chains(events);
    ChainsLength(events);
    c.SeenStates();
    hide Connection.Valid, Flatten, Ids, Distinct, Chains, Seen, Begun, Finished, After, LostIn, Content, Parse;
    NoEvents(c, events);
    for i := 0 to |events|
      invariant fresh(c) && Between(c, chains, i, lost) && (lost <==> LostIn(c, events, i))
      invariant c.Now() == Life(c, events[..i])
    {
      ChainsAt(events, i);
      LifeNext(c, events, i);
      LostNext(c, events, i);
      if !c.closed {
        lost := Callback(c, events[i], chains, i);
      } else {
        StillClosed(c, events, i);
        StaysEnded(c, chains, i, lost);
      }
    }
    assert events[..|events|] == events;
    c.SeenStates();
    FinishedOnce(c.calls);
  }

  lemma NoEvents(c: Connection, events: seq<Event>)
    ensures !LostIn(c, events, 0) && events[..0] == [] && Life(c, []) == Sight([], 0, false, false, [])
  {
  }

  lemma StillClosed(c: Connection, events: seq<Event>, n: nat)
    requires n < |events| && Life(c, events[..n]).closed
    ensures Life(c, events[..n + 1]) == Life(c, events[..n])
  {
    assert events[..n + 1][..n] == events[..n];
  }

  lemma StaysEnded(c: Connection, chains: seq<seq<Pbuf>>, i: nat, lost: bool)
    requires i < |chains| && Distinct(Flatten(chains)) && Between(c, chains, i, lost) && c.closed
    ensures Between(c, chains, i + 1, lost)
  {
    NextApart(chains, i);
    hide Connection.Valid, Flatten, Ids, Distinct, Seen;
  }

  lemma {:induction false} ChainsLength(events: seq<Event>)
    ensures |Chains(events)| == |events|
  {
    if events != [] {
      ChainsLength(events[1..]);
    }
  }

  /** Nothing has been received yet. */
  ghost predicate Unused(c: Connection)
    reads c
  {
    c.Valid() && !c.closed && !c.open && c.left == 0 && c.req == [] && c.refs == map[] && c.lent == {}
  }

  lemma {:induction false} ContentPrefix(list: seq<Pbuf>, more: seq<Pbuf>)
    ensures Content(list) <= Content(list + more)
  {
    ContentAppend(list, more);
  }

  /** Everything before the end of a GET request: the server waits. */
  lemma GetPrefixWaits(d: seq<byte>, full: seq<byte>)
    requires GET <= full && 0 !in full && d <= full && Find(d, CRLF_CRLF, 0) == None
    ensures Parse(d) == Waiting
  {
    if |d| >= 4 {
      assert d[..4] == full[..4];
      GetWaitsForBlankLine(d);
    }
  }

  lemma WholeVisible(c: Connection, list: seq<Pbuf>)
    requires |Content(list)| <= c.maxReq
    ensures c.Heard(list) == Parse(Content(list))
  {
    assert Content(list)[..|Content(list)|] == Content(list);
  }

  lemma NoRefs(c: Connection)
    requires c.Valid() && c.req == [] && c.lent == {}
    ensures c.refs == map[]
  {
    assert c.refs.Keys == {};
  }

  lemma NothingYet(chains: seq<seq<Pbuf>>)
    ensures Flatten(chains[..0]) == []
  {
  }

  /** One more chain while the list holds all that has come in. */
  lemma NextOfRequest(c: Connection, chains: seq<seq<Pbuf>>, i: nat)
    requires Distinct(Flatten(chains)) && i < |chains| && chains[i] != []
    requires c.Valid() && c.req == Flatten(chains[..i]) && c.lent == {}
    requires |Content(Flatten(chains))| < TWO_16
    ensures c.Arriving(chains[i]) && c.req + chains[i] == Flatten(chains[..i + 1])
    ensures Content(Flatten(chains[..i + 1])) <= Content(Flatten(chains))
    ensures Ids(Flatten(chains[..i + 1])) == Ids(Flatten(chains[..i])) + Ids(chains[i])
    ensures c.refs.Keys == Ids(c.req)
  {
    NextApart(chains, i);
    FlattenPrefix(chains, i + 1);
    var a, all := Flatten(chains[..i + 1]), Flatten(chains);
    assert all == a + all[|a|..];
    ContentPrefix(a, all[|a|..]);
    hide Flatten, Content, Ids;
    ArrivingNext(c, chains, i);
  }

  lemma FlattenPrefixes(chains: seq<seq<Pbuf>>, i: nat, k: nat)
    requires i <= k <= |chains|
    ensures Content(Flatten(chains[..i])) <= Content(Flatten(chains[..k]))
  {
    assert chains[..k][..i] == chains[..i];
    FlattenPrefix(chains[..k], i);
    var a, b := Flatten(chains[..i]), Flatten(chains[..k]);
    assert b == a + b[|a|..];
    ContentPrefix(a, b[|a|..]);
  }

  /** What is found in a prefix is found in the whole. */
  lemma NoneInPrefix(d: seq<byte>, s: seq<byte>, pat: seq<byte>)
    requires d <= s && Find(s, pat, 0) == None
    ensures Find(d, pat, 0) == None
  {
    assert s == d + s[|d|..];
    if Find(d, pat, 0).Some? {
      FindStable(d, s[|d|..], pat, 0);
    }
  }

  lemma GetStep(c: Connection, chains: seq<seq<Pbuf>>, i: nat, uri: seq<byte>, more: seq<byte>)
    requires i < |chains| && SP !in uri && 0 !in uri && 0 !in more
    requires Content(Flatten(chains)) == GET + uri + SPACE + more
    requires Find(GET + uri + SPACE + more, CRLF_CRLF, 0).Some?
    requires Find(Content(Flatten(chains[..|chains| - 1])), CRLF_CRLF, 0) == None
    requires |Content(Flatten(chains))| <= c.maxReq
    ensures c.Heard(Flatten(chains[..i + 1])) == if i + 1 < |chains| then Waiting else Get(uri, false)
  {
    hide Parse, Content, Flatten, Find, Connection.Heard;
    var full, d := GET + uri + SPACE + more, Content(Flatten(chains[..i + 1]));
    assert chains[..|chains|] == chains;
    FlattenPrefixes(chains, i + 1, |chains|);
    WholeVisible(c, Flatten(chains[..i + 1]));
    if i + 1 < |chains| {
      FlattenPrefixes(chains, i + 1, |chains| - 1);
      NoneInPrefix(d, Content(Flatten(chains[..|chains| - 1])), CRLF_CRLF);
      GetPrefixWaits(d, full);
    } else {
      GetLineParsed(uri, more);
    }
  }

  /** A GET request with both spaces in its request line, in any segments of any pbufs that the
      request list has room for: the server does nothing until the segment with the blank line,
      then asks for the file between the spaces, once, and holds no pbuf any more. */
  method ReceiveGet(c: Connection, chains: seq<seq<Pbuf>>, uri: seq<byte>, more: seq<byte>, app: App)
    requires Unused(c)
    requires chains != [] && (forall i :: 0 <= i < |chains| ==> chains[i] != []) && Distinct(Flatten(chains))
    requires SP !in uri && 0 !in uri && 0 !in more
    requires Content(Flatten(chains)) == GET + uri + SPACE + more
    requires Find(GET + uri + SPACE + more, CRLF_CRLF, 0).Some?
    requires Find(Content(Flatten(chains[..|chains| - 1])), CRLF_CRLF, 0) == None
    requires forall i :: 0 <= i < |chains| ==> c.InLimits(Flatten(chains[..i]))
    requires |Content(Flatten(chains))| <= c.maxReq && |Content(Flatten(chains))| < TWO_16
    modifies c
    ensures c.Valid() && c.calls == old(c.calls) + [FindFile(uri, false)]
    ensures c.req == [] && c.refs == map[] && c.left == 0
    ensures c.open == app.found && (c.closed <==> app.sendEnds)
  {
    hide Parse, Content, Flatten, Find, Connection.Heard, Connection.InLimits, AcceptedCalls, Ids, Distinct;
    hide Connection.InStep, Connection.RefsMatch, Connection.Valid, Connection.Arriving;
    var i := 0;
    assert Unused(c);
    NothingYet(chains);
    while i < |chains|
      invariant i <= |chains| && c.Valid() && c.left == 0 && c.lent == {}
      invariant i < |chains| ==> !c.closed && !c.open && c.req == Flatten(chains[..i]) && c.calls == old(c.calls)
      invariant i == |chains| ==> c.calls == old(c.calls) + [FindFile(uri, false)] && c.req == []
      invariant i == |chains| ==> c.open == app.found && (c.closed <==> app.sendEnds)
    {
      GetStep(c, chains, i, uri, more);
      NextOfRequest(c, chains, i);
      var err := c.RecvRequest(chains[i], app);
      i := i + 1;
    }
    NoRefs(c);
  }

  /** The first chain of a connection. With no line in it the server waits, as long as the list is
      within its limits; a method that is not supported gets page 501, and a POST line without a
      second space, or a list beyond its limits, page 400. A request that has been answered is held
      no longer. */
  method AnswerFirst(c: Connection, p: seq<Pbuf>, app: App)
    requires Unused(c) && p != [] && Distinct(p)
    requires |Content(p)| < TWO_16 && |Content(p)| <= c.maxReq && 0 !in Content(p)
    requires |Content(p)| < 7 || Find(Content(p), CRLF, 0) == None
             || (!(GET <= Content(p)) && (!(POST <= Content(p)) || 0x20 !in Content(p)[5..]))
    modifies c
    ensures var d := Content(p);
      var line, room := |d| >= 7 && Find(d, CRLF, 0).Some?, |d| <= c.bufSize && |p| <= c.queueLen;
      && c.Valid() && c.left == 0
      && c.calls == old(c.calls) + (if !line then if room then [] else [ErrorPage(400)]
                                    else if POST <= d then [ErrorPage(400)] else [ErrorPage(501)])
      && c.req == (if !line && room then p else [])
      && c.open == (app.errorPage && (line || !room))
      && (c.closed <==> (line || !room) && (!app.errorPage || app.sendEnds))
  {
    var d := Content(p);
    assert c.req + p == p;
    WholeVisible(c, p);
    Verdicts(d);
    NoLineWaits(d);
    AnswerCalls(c.Heard(p), d, c.InLimits(p), app);
    hide Parse, Content, Find, Connection.Heard, Ids, Distinct, Answer, Connection.RefsMatch, Connection.InStep;
    var err := c.RecvRequest(p, app);
  }

  lemma NoLineWaits(d: seq<byte>)
    requires 0 !in d
    ensures |d| < 7 || Find(d, CRLF, 0) == None ==> Parse(d) == Waiting
  {
    StrNStrIsFind(d, CRLF);
    hide Find, StrNStr;
  }

  /** The POST that `begin` announced has got `d` so far; when nothing is missing any more, it has
      been finished and what is to be sent has been looked up. */
  ghost predicate Delivered(calls: seq<Call>, left: nat, begin: Call, d: seq<byte>, reply: seq<byte>) {
    && begin.PostBegin? && calls != [] && calls[0] == begin && DataOf(calls) == d
    && left == (if |d| < begin.contentLength then begin.contentLength - |d| else 0)
    && (left == 0 ==> EndsWith(calls, [PostFinished, FindFile(reply, false)]))
  }

  predicate EndsWith(calls: seq<Call>, last: seq<Call>) {
    |calls| >= |last| && calls[|calls| - |last|..] == last
  }

  lemma StillEnds(calls: seq<Call>, more: seq<Call>, last: seq<Call>)
    requires EndsWith(more, last)
    ensures EndsWith(calls + more, last)
  {
  }

  lemma FirstPart(v: Verdict, all: seq<byte>, app: App)
    requires v.Post? && v.headLength <= |all| && v.contentLength < 0x8000_0000 && app.accepts && app.takes
    ensures Delivered(Answer(v, all, true, app), LeftAfter(v, all, app),
                      PostBegin(v.uri, v.headers, v.contentLength, true), all[v.headLength..], app.reply)
    ensures Answer(v, all, true, app) == Answer(v, all, false, app)
  {
    var begin, body := PostBegin(v.uri, v.headers, v.contentLength, true), all[v.headLength..];
    var more := AcceptedCalls(body, v.contentLength, app);
    DataAppend([begin], more);
    assert DataOf([begin]) == [];
    if body != [] || (v.contentLength == 0 && app.pbufLeft) {
      BodyData(body, v.contentLength, app);
    } else if v.contentLength == 0 {
      DataAppend([PostFinished], [FindFile(app.reply, false)]);
    }
  }

  lemma BodyData(bytes: seq<byte>, left: nat, app: App)
    ensures DataOf(BodyCalls(bytes, left, app)) == bytes
  {
    var rest := if !app.takes || |bytes| >= left then [PostFinished, FindFile(app.reply, false)] else [];
    assert rest != [] ==> rest[1..] == [FindFile(app.reply, false)] && rest[1..][1..] == [];
    assert ([PostData(bytes, app.takes)] + rest)[1..] == rest;
    assert DataOf([FindFile(app.reply, false)]) == [];
    assert DataOf(rest) == [];
  }

  lemma NextPart(calls: seq<Call>, left: nat, begin: Call, d: seq<byte>, bytes: seq<byte>, app: App)
    requires Delivered(calls, left, begin, d, app.reply) && left > 0 && app.takes
    ensures Delivered(calls + BodyCalls(bytes, left, app), if |bytes| < left then left - |bytes| else 0,
                      begin, d + bytes, app.reply)
  {
    DataAppend(calls, BodyCalls(bytes, left, app));
    BodyData(bytes, left, app);
    if |bytes| >= left {
      StillEnds(calls, BodyCalls(bytes, left, app), [PostFinished, FindFile(app.reply, false)]);
    }
    hide DataOf, BodyCalls, EndsWith;
  }

  /** What the server makes of the list while the head comes in. */
  lemma PostStep(c: Connection, list: seq<Pbuf>, uri: seq<byte>, headers: seq<byte>, k: nat, digits: seq<byte>,
      body: seq<byte>)
    requires PostHead(uri, headers, k, digits) && LengthAccepted(digits)
    requires Content(list) <= HeadText(uri, headers) + body && |HeadText(uri, headers)| <= c.maxReq
    ensures var head := HeadText(uri, headers);
      c.Heard(list) == if |Content(list)| < |head| then Waiting else Post(uri, headers, Number(digits, 0), |head|)
  {
    hide Content, Visible, Parse, PostHead, HeadText, LengthAccepted;
    var head, text := HeadText(uri, headers), Content(list);
    if |text| < |head| {
      WholeVisible(c, list);
      assert text < head by { assert (head + body)[..|text|] == head[..|text|]; }
      PostWaits(uri, headers, k, digits, text);
    } else {
      var seen := Visible(list, c.maxReq);
      assert |head| <= |seen| && seen <= head + body;
      assert seen == head + seen[|head|..];
      PostParsed(uri, headers, k, digits, seen[|head|..]);
    }
  }

  lemma HeadNotEmpty(uri: seq<byte>, headers: seq<byte>)
    ensures |HeadText(uri, headers)| > 0
  {
  }

  /** The bytes of the first `n` chains. */
  function Text(chains: seq<seq<Pbuf>>, n: nat): (s: seq<byte>)
    requires n <= |chains|
  {
    Content(Flatten(chains[..n]))
  }

  lemma ContentNext(chains: seq<seq<Pbuf>>, i: nat)
    requires i < |chains|
    ensures Text(chains, i + 1) == Text(chains, i) + Content(chains[i])
  {
    hide Content, Flatten;
    assert chains[..i + 1] == chains[..i] + [chains[i]];
    FlattenAppend(chains[..i], chains[i]);
    ContentAppend(Flatten(chains[..i]), chains[i]);
  }

  lemma TextPrefix(chains: seq<seq<Pbuf>>, i: nat)
    requires i <= |chains|
    ensures Text(chains, i) <= Content(Flatten(chains))
    ensures Text(chains, |chains|) == Content(Flatten(chains))
  {
    hide Content, Flatten;
    assert chains[..|chains|] == chains;
    FlattenPrefixes(chains, i, |chains|);
  }

  lemma TextOfList(chains: seq<seq<Pbuf>>, i: nat)
    requires i <= |chains|
    ensures Text(chains, i) == Content(Flatten(chains[..i]))
  {
  }

  lemma BodyNext(c: Connection, chains: seq<seq<Pbuf>>, i: nat)
    requires Distinct(Flatten(chains)) && i < |chains| && chains[i] != []
    requires c.Valid() && c.req == [] && c.refs.Keys <= Ids(Flatten(chains[..i]))
    requires |Content(Flatten(chains))| < TWO_16
    ensures c.Arriving(chains[i])
    ensures Ids(Flatten(chains[..i + 1])) == Ids(Flatten(chains[..i])) + Ids(chains[i])
  {
    ContentNext(chains, i);
    TextPrefix(chains, i + 1);
    assert c.req + chains[i] == chains[i];
    hide Content, Flatten, Ids;
    ArrivingNext(c, chains, i);
  }

  /** What comes of a verdict while a head comes in. */
  lemma HeadAnswer(v: Verdict, all: seq<byte>, inLimits: bool, app: App)
    requires (v == Waiting && inLimits) || (v.Post? && v.headLength <= |all| && v.contentLength < 0x8000_0000)
    requires app.accepts && app.takes
    ensures v == Waiting ==> Answer(v, all, inLimits, app) == [] && LeftAfter(v, all, app) == 0
    ensures v.Post? ==>
      Delivered([] + Answer(v, all, inLimits, app), LeftAfter(v, all, app),
                PostBegin(v.uri, v.headers, v.contentLength, true), all[v.headLength..], app.reply)
    ensures v.Post? ==> Answer(v, all, inLimits, app) != []
  {
    if v.Post? {
      FirstPart(v, all, app);
      assert [] + Answer(v, all, inLimits, app) == Answer(v, all, inLimits, app);
    }
  }

  /** While the head of a POST request comes in, the request list has room. */
  ghost predicate RoomForHead(c: Connection, chains: seq<seq<Pbuf>>, head: nat) {
    && head <= c.maxReq && |Content(Flatten(chains))| < TWO_16 && Distinct(Flatten(chains))
    && (forall i :: 0 <= i < |chains| ==> chains[i] != [])
    && forall i :: 0 <= i <= |chains| && |Text(chains, i)| < head ==> c.InLimits(Flatten(chains[..i]))
  }

  lemma RoomAt(c: Connection, chains: seq<seq<Pbuf>>, head: nat, i: nat)
    requires RoomForHead(c, chains, head) && i < |chains|
    ensures chains[i] != [] && |Content(Flatten(chains))| < TWO_16 && Distinct(Flatten(chains)) && head <= c.maxReq
    ensures |Text(chains, i + 1)| < head ==> c.InLimits(Flatten(chains[..i + 1]))
  {
  }

  /** The POST of which `n` chains have come in: not yet begun, or begun and given what is
      behind the head. */
  ghost predicate PostState(c: Connection, chains: seq<seq<Pbuf>>, n: nat, head: nat, begin: Call, app: App)
    requires n <= |chains|
    reads c
  {
    var text := Text(chains, n);
    && c.Valid() && (c.closed <==> head <= |text| && c.left == 0 && app.sendEnds)
    && (c.closed ==> !Seen(c.calls).Posting?)
    && if |text| < head then c.calls == [] && c.left == 0 && !c.open && c.lent == {} && c.req == Flatten(chains[..n])
    else
      && Delivered(c.calls, c.left, begin, text[head..], app.reply) && c.refs.Keys <= Ids(Flatten(chains[..n]))
      && (c.left > 0 ==> c.req == []) && c.open == (c.left == 0 && app.found)
  }

  lemma PostStart(c: Connection, chains: seq<seq<Pbuf>>, head: nat, begin: Call, app: App)
    requires Unused(c) && c.calls == [] && head > 0
    ensures PostState(c, chains, 0, head, begin, app)
  {
    assert chains[..0] == [];
  }

  /** One more chain of the head. */
  method HeadChain(c: Connection, chains: seq<seq<Pbuf>>, n: nat, ghost uri: seq<byte>, ghost headers: seq<byte>,
      ghost k: nat, ghost digits: seq<byte>, ghost body: seq<byte>, app: App)
    requires n < |chains| && app.accepts && app.takes
    requires PostHead(uri, headers, k, digits) && LengthAccepted(digits)
    requires Content(Flatten(chains)) == HeadText(uri, headers) + body
    requires RoomForHead(c, chains, |HeadText(uri, headers)|) && |Text(chains, n)| < |HeadText(uri, headers)|
    requires PostState(c, chains, n, |HeadText(uri, headers)|, PostBegin(uri, headers, Number(digits, 0), true), app)
    modifies c
    ensures PostState(c, chains, n + 1, |HeadText(uri, headers)|, PostBegin(uri, headers, Number(digits, 0), true), app)
  {
    hide Content, Flatten, Text, HeadText, Connection.Heard, Connection.InLimits, Answer, LeftAfter, Delivered, Number;
    hide Connection.InStep, Connection.RefsMatch, Connection.Arriving, Connection.Valid, Ids, Distinct;
    hide PostHead, LengthAccepted, RoomForHead;
    RoomAt(c, chains, |HeadText(uri, headers)|, n);
    TextPrefix(chains, n + 1);
    NextOfRequest(c, chains, n);
    ghost var list := Flatten(chains[..n + 1]);
    TextOfList(chains, n + 1);
    PostStep(c, list, uri, headers, k, digits, body);
    HeadAnswer(c.Heard(list), Content(list), c.InLimits(list), app);
    var err := c.RecvRequest(chains[n], app);
  }

  /** One more chain of the body. */
  method BodyChain(c: Connection, chains: seq<seq<Pbuf>>, n: nat, ghost head: nat, ghost begin: Call, app: App)
    requires n < |chains| && app.takes && c.left > 0
    requires RoomForHead(c, chains, head) && head <= |Text(chains, n)|
    requires PostState(c, chains, n, head, begin, app)
    modifies c
    ensures head <= |Text(chains, n + 1)| && PostState(c, chains, n + 1, head, begin, app)
  {
    hide Content, Flatten, Text, BodyCalls, Delivered;
    hide Connection.InStep, Connection.RefsMatch, Connection.Arriving, Connection.Valid, Ids, Distinct, RoomForHead;
    RoomAt(c, chains, head, n);
    ContentNext(chains, n);
    BodyNext(c, chains, n);
    ghost var text := Text(chains, n);
    NextPart(c.calls, c.left, begin, text[head..], Content(chains[n]), app);
    assert (text + Content(chains[n]))[head..] == text[head..] + Content(chains[n]);
    c.RecvBody(chains[n], app);
  }

  /** The chains up to the end of the head. */
  method HeadChains(c: Connection, chains: seq<seq<Pbuf>>, ghost uri: seq<byte>, ghost headers: seq<byte>,
      ghost k: nat, ghost digits: seq<byte>, ghost body: seq<byte>, app: App) returns (n: nat)
    requires app.accepts && app.takes && PostHead(uri, headers, k, digits) && LengthAccepted(digits)
    requires Content(Flatten(chains)) == HeadText(uri, headers) + body
    requires RoomForHead(c, chains, |HeadText(uri, headers)|)
    requires PostState(c, chains, 0, |HeadText(uri, headers)|, PostBegin(uri, headers, Number(digits, 0), true), app)
    modifies c
    ensures n <= |chains| && |HeadText(uri, headers)| <= |Text(chains, n)|
    ensures PostState(c, chains, n, |HeadText(uri, headers)|, PostBegin(uri, headers, Number(digits, 0), true), app)
  {
    hide *;
    ghost var head, begin := |HeadText(uri, headers)|, PostBegin(uri, headers, Number(digits, 0), true);
    n := 0;
    CallsEmpty(c, chains, n, head, begin, app);
    while c.calls == []
      invariant n <= |chains| && PostState(c, chains, n, head, begin, app)
      invariant c.calls == [] <==> |Text(chains, n)| < head
      decreases |chains| - n
    {
      TextPrefix(chains, n);
      HeadChain(c, chains, n, uri, headers, k, digits, body, app);
      n := n + 1;
      CallsEmpty(c, chains, n, head, begin, app);
    }
  }

  /** A POST request whose head has a length that is accepted, in any segments: the application
      is offered the URI, the headers and the length that stand in the head, and then gets the
      bytes behind the head, in order, until it has as many as were announced. */
  method ReceivePost(c: Connection, chains: seq<seq<Pbuf>>, ghost uri: seq<byte>, ghost headers: seq<byte>,
      ghost k: nat, ghost digits: seq<byte>, ghost body: seq<byte>, app: App) returns (n: nat)
    requires Unused(c) && c.calls == [] && app.accepts && app.takes
    requires PostHead(uri, headers, k, digits) && LengthAccepted(digits)
    requires Content(Flatten(chains)) == HeadText(uri, headers) + body
    requires RoomForHead(c, chains, |HeadText(uri, headers)|)
    modifies c
    ensures c.Valid() && (c.closed <==> c.left == 0 && app.sendEnds) && c.open == (c.left == 0 && app.found)
    ensures n <= |chains|
    ensures |HeadText(uri, headers)| <= |Text(chains, n)|
    ensures Delivered(c.calls, c.left, PostBegin(uri, headers, Number(digits, 0), true),
                      Text(chains, n)[|HeadText(uri, headers)|..], app.reply)
    ensures DataOf(c.calls) == Text(chains, n)[|HeadText(uri, headers)|..]
    ensures var got, all := |DataOf(c.calls)|, Number(digits, 0); c.left == if got < all then all - got else 0
    ensures c.left == 0 ==> EndsWith(c.calls, [PostFinished, FindFile(app.reply, false)])
    ensures n == |chains| || c.left == 0
    ensures c.calls != [] && forall length: nat :: digits == Digits(length) ==>
              c.calls[0] == PostBegin(uri, headers, length, true)
    ensures Begun(c.calls) == Finished(c.calls) + if c.left > 0 then 1 else 0
  {
    ghost var head, begin := |HeadText(uri, headers)|, PostBegin(uri, headers, Number(digits, 0), true);
    HeadNotEmpty(uri, headers);
    n := 0;
    PostStart(c, chains, head, begin, app);
    hide *;
    n := HeadChains(c, chains, uri, headers, k, digits, body, app);
    while n < |chains| && c.left > 0
      invariant n <= |chains| && head <= |Text(chains, n)| && PostState(c, chains, n, head, begin, app)
    {
      BodyChain(c, chains, n, head, begin, app);
      n := n + 1;
    }
    PostEnd(c, chains, n, head, begin, app);
    forall length: nat | digits == Digits(length) ensures Number(digits, 0) == length {
      DigitsRead(length);
    }
  }

  lemma PostEnd(c: Connection, chains: seq<seq<Pbuf>>, n: nat, head: nat, begin: Call, app: App)
    requires n <= |chains| && PostState(c, chains, n, head, begin, app) && head <= |Text(chains, n)|
    ensures c.Valid() && (c.closed <==> c.left == 0 && app.sendEnds) && c.open == (c.left == 0 && app.found)
    ensures c.calls != [] && c.calls[0] == begin && DataOf(c.calls) == Text(chains, n)[head..]
    ensures c.left == 0 ==> EndsWith(c.calls, [PostFinished, FindFile(app.reply, false)])
    ensures begin.PostBegin?
    ensures var got, all := |DataOf(c.calls)|, begin.contentLength; c.left == if got < all then all - got else 0
    ensures Delivered(c.calls, c.left, begin, Text(chains, n)[head..], app.reply)
    ensures Begun(c.calls) == Finished(c.calls) + if c.left > 0 then 1 else 0
  {
    hide Content, Flatten, Text, Ids, Distinct, DataOf;
    c.SeenStates();
    FinishedOnce(c.calls);
  }

  lemma CallsEmpty(c: Connection, chains: seq<seq<Pbuf>>, n: nat, head: nat, begin: Call, app: App)
    requires n <= |chains| && PostState(c, chains, n, head, begin, app)
    ensures c.calls == [] <==> |Text(chains, n)| < head
  {
  }
}
