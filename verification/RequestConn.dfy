/**
 * The receiving side of a server connection: http_recv, http_parse_request, http_post_request,
 * http_post_rxpbuf, http_close_or_abort_conn and http_err of httpd.c, without manual window
 * updates and keep-alive. What the application and the file system answer is a parameter of
 * every step.
 */
module HttpReceive {
  import opened Bytes
  import opened HttpRequest
  import opened PbufRefs
  import opened Prelude

  /** The calls that the server makes while it receives. */
  datatype Call =
    | FindFile(uri: seq<byte>, is09: bool)
    | ErrorPage(code: nat)
    | PostBegin(uri: seq<byte>, headers: seq<byte>, contentLength: nat, accepted: bool)
    | PostData(bytes: seq<byte>, taken: bool)
    | PostFinished

  /** How the calls look to the application. Over: it has refused data or has all of it. Cut:
      it was told of the end before that, so the connection must be gone. */
  datatype View = Idle | Posting(contentLength: nat, delivered: seq<byte>, over: bool) | Cut | Broken

  function Step(v: View, c: Call): View {
    match c
    case FindFile(_, _) => if v == Idle then Idle else Broken
    case ErrorPage(_) => if v == Idle then Idle else Broken
    case PostBegin(_, _, n, accepted) =>
      if v != Idle then Broken else if accepted then Posting(n, [], false) else Idle
    case PostData(bytes, taken) =>
      if !v.Posting? || v.over then Broken else
        var d := v.delivered + bytes;
        Posting(v.contentLength, d, !taken || |d| >= v.contentLength)
    case PostFinished =>
      if !v.Posting? then Broken else if v.over || v.contentLength == 0 then Idle else Cut
  }

  function Seen(calls: seq<Call>): View {
    if calls == [] then Idle else Step(Seen(calls[..|calls| - 1]), calls[|calls| - 1])
  }

  function Steps(v: View, more: seq<Call>): View
    decreases |more|
  {
    if more == [] then v else Steps(Step(v, more[0]), more[1..])
  }

  lemma {:induction false} SeenAppend(calls: seq<Call>, more: seq<Call>)
    ensures Seen(calls + more) == Steps(Seen(calls), more)
    decreases |more|
  {
    if more == [] {
      assert calls + more == calls;
    } else {
      assert calls + more == calls + [more[0]] + more[1..];
      assert (calls + [more[0]])[..|calls|] == calls;
      SeenAppend(calls + [more[0]], more[1..]);
    }
  }

  function Begun(calls: seq<Call>): nat {
    if calls == [] then 0 else
      var c := calls[|calls| - 1];
      Begun(calls[..|calls| - 1]) + if c.PostBegin? && c.accepted then 1 else 0
  }

  function Finished(calls: seq<Call>): nat {
    if calls == [] then 0 else Finished(calls[..|calls| - 1]) + if calls[|calls| - 1].PostFinished? then 1 else 0
  }

  /** Every accepted POST is finished at most once, before the next one begins; the one that is
      under way is the only one that is not. */
  lemma {:induction false} FinishedOnce(calls: seq<Call>)
    requires Seen(calls) != Broken
    ensures Begun(calls) == Finished(calls) + if Seen(calls).Posting? then 1 else 0
  {
    if calls != [] {
      FinishedOnce(calls[..|calls| - 1]);
    }
  }

  /** The bytes handed to the application. */
  function DataOf(calls: seq<Call>): seq<byte> {
    if calls == [] then []
    else if calls[0].PostData? then calls[0].bytes + DataOf(calls[1..])
    else DataOf(calls[1..])
  }

  lemma {:induction false} DataAppend(a: seq<Call>, b: seq<Call>)
    ensures DataOf(a + b) == DataOf(a) + DataOf(b)
    decreases |a|
  {
    if a == [] {
      assert a + b == b;
    } else {
      assert (a + b)[1..] == a[1..] + b;
      DataAppend(a[1..], b);
    }
  }

  /** What the application, the file system, the pbuf pool and the sending side do in a step:
      is the POST accepted, is the data taken, what is to be sent in the end, is there such a
      file or an error page, is there a pbuf, does sending end the connection at once. */
  datatype App = App(accepts: bool, takes: bool, reply: seq<byte>, found: bool, errorPage: bool,
                     pbufLeft: bool, sendEnds: bool)

  datatype Err = Ok | InProgress | Arg

  /** The bytes that are parsed: a single pbuf is read in place, a chain through the request
      buffer. */
  function Visible(req: seq<Pbuf>, maxReq: nat): (s: seq<byte>)
    ensures |req| == 1 ==> s == Content(req)
    ensures |req| != 1 ==> s == Content(req)[..Min(|Content(req)|, maxReq)]
  {
    if |req| == 1 then
      assert Content(req[1..]) == [];
      req[0].payload
    else Content(req)[..Min(|Content(req)|, maxReq)]
  }

  /** Handing over body bytes, of which `left` are expected. */
  function BodyCalls(bytes: seq<byte>, left: nat, app: App): (r: seq<Call>) {
    [PostData(bytes, app.takes)]
    + if !app.takes || |bytes| >= left then [PostFinished, FindFile(app.reply, false)] else []
  }

  function AcceptedCalls(body: seq<byte>, left: nat, app: App): (r: seq<Call>) {
    if body != [] then BodyCalls(body, left, app)
    else if left > 0 then []
    else if app.pbufLeft then BodyCalls([], 0, app)
    else [PostFinished, FindFile(app.reply, false)]
  }

  /** The calls that a verdict on the request bytes `all` leads to. */
  function Answer(v: Verdict, all: seq<byte>, inLimits: bool, app: App): (r: seq<Call>)
    requires v.Post? ==> v.headLength <= |all|
  {
    match v
    case Waiting => if inLimits then [] else [ErrorPage(400)]
    case Bad => [ErrorPage(400)]
    case Unsupported => [ErrorPage(501)]
    case Get(uri, is09) => [FindFile(uri, is09)]
    case PostIncomplete => []
    case Post(uri, headers, n, headLength) =>
      [PostBegin(uri, headers, n, app.accepts)]
      + if app.accepts then AcceptedCalls(all[headLength..], n, app) else [FindFile(app.reply, false)]
  }

  /** The calls one by one. */
  lemma AnswerCalls(v: Verdict, all: seq<byte>, inLimits: bool, app: App)
    requires v.Post? ==> v.headLength <= |all|
    ensures v == Bad || (v == Waiting && !inLimits) ==> Answer(v, all, inLimits, app) == [ErrorPage(400)]
    ensures v == Unsupported ==> Answer(v, all, inLimits, app) == [ErrorPage(501)]
    ensures v == PostIncomplete || (v == Waiting && inLimits) ==> Answer(v, all, inLimits, app) == []
    ensures v.Get? ==> Answer(v, all, inLimits, app) == [FindFile(v.uri, v.is09)]
    ensures v.Post? && !app.accepts ==>
              (Answer(v, all, inLimits, app) ==
               [PostBegin(v.uri, v.headers, v.contentLength, false), FindFile(app.reply, false)])
    ensures v.Post? && app.accepts ==>
              var begin, body := PostBegin(v.uri, v.headers, v.contentLength, true), all[v.headLength..];
              Answer(v, all, inLimits, app) ==
                if body == [] && v.contentLength > 0 then [begin]
                else if body == [] && !app.pbufLeft then [begin, PostFinished, FindFile(app.reply, false)]
                else if |body| < v.contentLength && app.takes then [begin, PostData(body, true)]
                else [begin, PostData(body, app.takes), PostFinished, FindFile(app.reply, false)]
  {
  }

  /** Is a response open for sending afterwards? With `left` bytes of a POST still to come
      there is none yet. */
  predicate OpenAfter(v: Verdict, inLimits: bool, left: nat, app: App) {
    match v
    case Waiting => !inLimits && app.errorPage
    case Bad => app.errorPage
    case Unsupported => app.errorPage
    case Get(_, _) => app.found
    case PostIncomplete => false
    case Post(_, _, _, _) => left == 0 && app.found
  }

  /** Must the server wait for more? */
  predicate Waits(v: Verdict, inLimits: bool) {
    v.PostIncomplete? || (v.Waiting? && inLimits)
  }

  /** The result of acting on a verdict. */
  function ErrAfter(v: Verdict, inLimits: bool, app: App): (r: Err)
    ensures r == InProgress <==> Waits(v, inLimits)
  {
    match v
    case Get(_, _) => Ok
    case Post(_, _, _, _) => Ok
    case _ => if Waits(v, inLimits) then InProgress else if app.errorPage then Ok else Arg
  }

  /** A connection as it is between two callbacks. */
  datatype Sight = Sight(req: seq<Pbuf>, left: u32, open: bool, closed: bool, calls: seq<Call>)

  /** What http_recv makes of data. */
  function Received(c: Connection, s: Sight, p: seq<Pbuf>, app: App): (r: Sight) {
    if s.left > 0 then
      var left := if app.takes && |Content(p)| < s.left then s.left - |Content(p)| else 0;
      Sight([], left, if left == 0 then app.found else s.open, left == 0 && app.sendEnds,
            s.calls + BodyCalls(Content(p), s.left, app))
    else if s.open then s
    else
      var list := s.req + p;
      var v, limits := c.Heard(list), c.InLimits(list);
      var left, err := LeftAfter(v, Content(list), app), ErrAfter(v, limits, app);
      Sight(if err == InProgress then list else [], left, OpenAfter(v, limits, left, app),
            err == Arg || (err == Ok && left == 0 && app.sendEnds), s.calls + Answer(v, Content(list), limits, app))
  }

  /** What the application has seen after the calls of an answer. */
  lemma AnswerSeen(v: Verdict, all: seq<byte>, inLimits: bool, app: App)
    requires v.Post? ==> v.headLength <= |all|
    ensures var body := if v.Post? then all[v.headLength..] else [];
      Steps(Idle, Answer(v, all, inLimits, app)) ==
        if v.Post? && app.accepts && |body| < v.contentLength && (body == [] || app.takes)
        then Posting(v.contentLength, body, false) else Idle
  {
    if v.Post? {
      var body := all[v.headLength..];
      var more := if app.accepts then AcceptedCalls(body, v.contentLength, app) else [FindFile(app.reply, false)];
      StepsCons(Idle, PostBegin(v.uri, v.headers, v.contentLength, app.accepts), more);
      if !app.accepts {
        StepsCons(Idle, more[0], []);
      } else if body != [] || (v.contentLength == 0 && app.pbufLeft) {
        BodySeen(v.contentLength, [], body, v.contentLength, app);
        assert [] + body == body;
      } else if v.contentLength == 0 {
        EndSeen(Posting(0, [], false), app.reply);
      }
    } else {
      assert Answer(v, all, inLimits, app) == [] || |Answer(v, all, inLimits, app)| == 1;
    }
  }

  lemma StepsCons(v: View, c: Call, more: seq<Call>)
    ensures Steps(v, [c] + more) == Steps(Step(v, c), more)
    ensures Steps(v, [c]) == Step(v, c)
  {
    assert ([c] + more)[1..] == more;
  }

  lemma EndSeen(v: View, reply: seq<byte>)
    requires v.Posting? && (v.over || v.contentLength == 0)
    ensures Steps(v, [PostFinished, FindFile(reply, false)]) == Idle
  {
    assert [PostFinished, FindFile(reply, false)] == [PostFinished] + [FindFile(reply, false)];
    StepsCons(v, PostFinished, [FindFile(reply, false)]);
    StepsCons(Idle, FindFile(reply, false), []);
  }

  lemma BodySeen(n: nat, d: seq<byte>, bytes: seq<byte>, left: nat, app: App)
    requires |d| + left == n
    ensures Steps(Posting(n, d, false), BodyCalls(bytes, left, app)) ==
      if !app.takes || |bytes| >= left then Idle else Posting(n, d + bytes, false)
  {
    var over := !app.takes || |bytes| >= left;
    StepsCons(Posting(n, d, false), PostData(bytes, app.takes),
              if over then [PostFinished, FindFile(app.reply, false)] else []);
    if over {
      EndSeen(Posting(n, d + bytes, true), app.reply);
    }
  }

  /** What is left of the announced length once the answer has been given. */
  function LeftAfter(v: Verdict, all: seq<byte>, app: App): (n: u32)
    requires v.Post? ==> v.headLength <= |all| && v.contentLength < 0x8000_0000
  {
    var body := if v.Post? then all[v.headLength..] else [];
    if v.Post? && app.accepts && |body| < v.contentLength && (body == [] || app.takes)
    then v.contentLength - |body| else 0
  }

  /** The part of the chain from `k` on, without its first `skip` bytes, is the content without
      its first `off` bytes. */
  ghost predicate StartsAt(chain: seq<Pbuf>, off: nat, k: nat, skip: nat) {
    && k <= |chain| && skip <= |Content(chain[k..])| && off <= |Content(chain)|
    && Content(chain)[off..] == Content(chain[k..])[skip..]
  }

  lemma NextStart(chain: seq<Pbuf>, off: nat, k: nat, skip: nat)
    requires StartsAt(chain, off, k, skip) && k < |chain| && |chain[k].payload| <= skip
    ensures StartsAt(chain, off, k + 1, skip - |chain[k].payload|)
  {
    assert chain[k..][1..] == chain[k + 1..];
    assert Content(chain[k..]) == chain[k].payload + Content(chain[k + 1..]);
  }

  lemma StartFound(chain: seq<Pbuf>, off: nat, k: nat, skip: nat)
    requires StartsAt(chain, off, k, skip) && (k < |chain| ==> skip < |chain[k].payload|)
    ensures k == |chain| <==> Content(chain)[off..] == []
  {
    if k < |chain| {
      assert Content(chain[k..]) == chain[k].payload + Content(chain[k..][1..]);
    } else {
      assert chain[k..] == [];
    }
  }

  ghost predicate Agrees(v: View, req: seq<Pbuf>, left: nat, closed: bool, heard: seq<byte>, head: nat) {
    match v
    case Idle => left == 0 && (!closed ==> heard == Content(req))
    case Posting(n, d, over) =>
      && !over && req == [] && head <= |heard| && d == heard[head..]
      && |d| < n && left == n - |d|
    case Cut => closed
    case Broken => false
  }

  /** Handing over body bytes keeps the counter in step. */
  lemma BodyStep(calls: seq<Call>, req: seq<Pbuf>, left: nat, heard: seq<byte>, head: nat, bytes: seq<byte>, app: App)
    requires Agrees(Seen(calls), req, left, false, heard, head) && left > 0
    ensures var left' := if app.takes && |bytes| < left then left - |bytes| else 0;
      && Agrees(Seen(calls + BodyCalls(bytes, left, app)), [], left', false,
                if left' > 0 then heard + bytes else [], head)
    ensures req == []
  {
    var v := Seen(calls);
    BodySeen(v.contentLength, v.delivered, bytes, left, app);
    SeenAppend(calls, BodyCalls(bytes, left, app));
    hide BodyCalls, Steps, Step, Seen;
    assert (heard + bytes)[head..] == heard[head..] + bytes;
  }

  /** So does acting on a request. */
  lemma AnswerStep(calls: seq<Call>, req: seq<Pbuf>, heard: seq<byte>, head: nat, p: seq<Pbuf>, v: Verdict,
      inLimits: bool, app: App)
    requires Agrees(Seen(calls), req, 0, false, heard, head)
    requires v.Post? ==> v.headLength <= |Content(req + p)| && v.contentLength < 0x8000_0000
    ensures var left, waits := LeftAfter(v, Content(req + p), app), Waits(v, inLimits);
      Agrees(Seen(calls + Answer(v, Content(req + p), inLimits, app)), if waits then req + p else [], left, false,
        if waits || left > 0 then heard + Content(p) else [], if left > 0 then v.headLength else head)
  {
    ContentAppend(req, p);
    AnswerSeen(v, Content(req + p), inLimits, app);
    SeenAppend(calls, Answer(v, Content(req + p), inLimits, app));
    NoContent();
    hide Answer, Steps, Step, Seen;
  }

  class Connection {
    /** The size of the request buffer, and the limits of the request list. */
    const maxReq: nat
    const bufSize: nat
    const queueLen: nat

    /** hs->req, the list of received pbufs */
    var req: seq<Pbuf>
    /** the reference counts of the pbufs that came in */
    var refs: map<nat, nat>
    /** hs->post_content_len_left */
    var left: u32
    /** hs->handle is set: a response is being sent */
    var open: bool
    /** The connection state has been freed. */
    var closed: bool
    var calls: seq<Call>

    /** pbufs that the application holds */
    ghost var lent: set<nat>
    /** the bytes of the request being received, and the length of its head */
    ghost var heard: seq<byte>
    ghost var head: nat

    /** Nothing is held twice, and nothing but the request list and the application's pbufs. */
    ghost predicate RefsMatch()
      reads `req, `refs, `lent
    {
      Owned(refs, req, lent)
    }

    /** What the application has seen agrees with the connection's counter: a POST is under way
        exactly while bytes are left, and it has got the body so far. */
    ghost predicate InStep()
      reads `req, `left, `closed, `calls, `heard, `head
    {
      Agrees(Seen(calls), req, left, closed, heard, head)
    }

    ghost predicate Valid()
      reads this
    {
      RefsMatch() && InStep() && (closed || open ==> req == [])
    }

    ghost function Now(): (r: Sight)
      reads this
    {
      Sight(req, left, open, closed, calls)
    }

    lemma SeenStates()
      requires Valid()
      ensures Seen(calls) != Broken
      ensures !closed ==> (Seen(calls).Posting? <==> left > 0)
    {
    }

    predicate InLimits(list: seq<Pbuf>) {
      |Content(list)| <= bufSize && |list| <= queueLen
    }

    /** A chain that comes in: at least one pbuf, none of them in use, its length in 16 bits. */
    ghost predicate Arriving(p: seq<Pbuf>)
      reads `req, `refs
    {
      && p != [] && Distinct(req + p) && Ids(p) !! refs.Keys
      && |Content(req + p)| < TWO_16
    }

    constructor (maxReq: nat, bufSize: nat, queueLen: nat)
      ensures Valid() && !closed && !open && left == 0 && req == [] && calls == [] && heard == []
      ensures this.maxReq == maxReq && this.bufSize == bufSize && this.queueLen == queueLen
      ensures refs == map[]
    {
      this.maxReq, this.bufSize, this.queueLen := maxReq, bufSize, queueLen;
      req, refs, left, open, closed, calls := [], map[], 0, false, false, [];
      lent, heard, head := {}, [], 0;
    }

    /** http_post_rxpbuf; None is a pbuf that could not be allocated. */
    method PostRxPbuf(p: Option<seq<Pbuf>>, app: App)
      requires if p.Some? then |Content(p.value)| < TWO_16 else left == 0
      modifies `left, `calls, `open
      ensures calls == old(calls) + if p.Some? then BodyCalls(Content(p.value), old(left), app)
                                    else [PostFinished, FindFile(app.reply, false)]
      ensures left == if p.Some? && app.takes && |Content(p.value)| < old(left)
                      then old(left) - |Content(p.value)| else 0
      ensures calls == old(calls) + (if p.Some? then [PostData(Content(p.value), app.takes)] else [])
                       + if left == 0 then [PostFinished, FindFile(app.reply, false)] else []
      ensures open == if left == 0 then app.found else old(open)
    {
      if p.Some? {
        var len := |Content(p.value)|;
        if left < len {
          left := 0;
        } else {
          left := left - len;
        }
        calls := calls + [PostData(Content(p.value), app.takes)];
        if !app.takes {
          left := 0;
        }
      }
      if left == 0 {
        calls := calls + [PostFinished, FindFile(app.reply, false)];
        open := app.found;
      }
    }

    /** The search for the pbuf in which the body starts. */
    method FindBody(off: nat) returns (k: nat, skip: nat)
      requires off <= |Content(req)|
      ensures StartsAt(req, off, k, skip)
      ensures k < |req| ==> skip < |req[k].payload|
      ensures k == |req| <==> Content(req)[off..] == []
    {
      k, skip := 0, off;
      assert req[0..] == req;
      while k < |req| && |req[k].payload| <= skip
        invariant StartsAt(req, off, k, skip)
        decreases |req| - k
      {
        NextStart(req, off, k, skip);
        skip := skip - |req[k].payload|;
        k := k + 1;
      }
      StartFound(req, off, k, skip);
    }

    /** The list from pbuf `k` on, without the header bytes in it, goes to the application with a
        reference of its own. */
    method HandOver(headLength: nat, k: nat, skip: nat, app: App)
      requires StartsAt(req, headLength, k, skip) && k < |req| && skip < |req[k].payload|
      requires |Content(req)| < TWO_16 && req[k].id in refs
      modifies `left, `calls, `open, `refs
      ensures var body := Content(req)[headLength..];
        && calls == old(calls) + BodyCalls(body, old(left), app)
        && left == if app.takes && |body| < old(left) then old(left) - |body| else 0
      ensures open == if left == 0 then app.found else old(open)
      ensures refs == old(refs)[req[k].id := old(refs)[req[k].id] + 1]
    {
      HeaderHidden(req, headLength, k, skip);
      hide StartsAt, BodyCalls, Content;
      var q := [Pbuf(req[k].id, req[k].payload[skip..])] + req[k + 1..];
      refs := refs[req[k].id := refs[req[k].id] + 1];
      PostRxPbuf(Some(q), app);
    }

    /** http_post_request after the application has accepted: from where the body starts, the
        list is handed over. */
    method PostAccepted(n: u32, headLength: nat, app: App) returns (k: nat)
      requires headLength <= |Content(req)| < TWO_16 && AllOnHand()
      modifies `left, `calls, `open, `refs
      ensures var body := Content(req)[headLength..];
        && calls == old(calls) + AcceptedCalls(body, n, app)
        && left == (if |body| < n && (body == [] || app.takes) then n - |body| else 0)
        && (k == |req| <==> body == [])
      ensures k <= |req| && refs == if k < |req| then old(refs)[req[k].id := old(refs)[req[k].id] + 1] else old(refs)
      ensures open == if left == 0 then app.found else old(open)
    {
      hide StartsAt, BodyCalls, Content;
      left := n;
      var skip;
      k, skip := FindBody(headLength);
      if k < |req| {
        assert req[k] in req;
        HandOver(headLength, k, skip, app);
      } else if left == 0 {
        var q: seq<Pbuf> := [];
        NoContent();
        PostRxPbuf(if app.pbufLeft then Some(q) else None, app);
      }
    }

    ghost predicate AllOnHand()
      reads `req, `refs
    {
      forall p :: p in req ==> p.id in refs
    }

    /** http_find_error_file */
    method FindErrorFile(code: nat, app: App) returns (err: Err)
      modifies `calls, `open
      ensures calls == old(calls) + [ErrorPage(code)]
      ensures err == (if app.errorPage then Ok else Arg) && open == (app.errorPage || old(open))
    {
      calls := calls + [ErrorPage(code)];
      if app.errorPage {
        open := true;
        err := Ok;
      } else {
        err := Arg;
      }
    }

    /** http_parse_request on the request list. */
    method ActOn(v: Verdict, app: App) returns (err: Err, k: nat)
      requires v.Post? ==> v.headLength <= |Content(req)| && v.contentLength < 0x8000_0000
      requires |Content(req)| < TWO_16 && AllOnHand() && left == 0 && !open
      modifies `left, `calls, `open, `refs
      ensures calls == old(calls) + Answer(v, Content(req), InLimits(req), app)
      ensures left == LeftAfter(v, Content(req), app)
      ensures err == ErrAfter(v, InLimits(req), app)
      ensures open == OpenAfter(v, InLimits(req), left, app)
      ensures left > 0 ==> err == Ok
      ensures k <= |req| && refs == if k < |req| then old(refs)[req[k].id := old(refs)[req[k].id] + 1] else old(refs)
      ensures k < |req| ==> v.Post?
    {
      hide AcceptedCalls, Content, AllOnHand;
      k := |req|;
      match v {
        case Waiting =>
          if InLimits(req) {
            err := InProgress;
          } else {
            err := FindErrorFile(400, app);
          }
        case Bad =>
          err := FindErrorFile(400, app);
        case Unsupported =>
          err := FindErrorFile(501, app);
        case PostIncomplete =>
          err := InProgress;
        case Get(uri, is09) =>
          calls := calls + [FindFile(uri, is09)];
          open := app.found;
          err := Ok;
        case Post(uri, headers, n, headLength) =>
          calls := calls + [PostBegin(uri, headers, n, app.accepts)];
          if app.accepts {
            k := PostAccepted(n, headLength, app);
          } else {
            calls := calls + [FindFile(app.reply, false)];
            open := app.found;
          }
          err := Ok;
      }
    }

    /** The counts when a chain comes in: once each. */
    static function Taken(refs: map<nat, nat>, p: seq<Pbuf>): (r: map<nat, nat>) {
      refs + map i | i in Ids(p) :: 1
    }

    /** http_parse_request: the chain joins the list, and the list is looked at. */
    method ParseRequest(p: seq<Pbuf>, app: App) returns (err: Err, k: nat)
      requires p != [] && Distinct(req + p) && AllOnce(refs, req + p) && |Content(req + p)| < TWO_16
      requires left == 0 && !open
      modifies `req, `left, `calls, `open, `refs
      ensures req == old(req) + p
      ensures var v := Heard(req);
        && calls == old(calls) + Answer(v, Content(req), InLimits(req), app)
        && left == LeftAfter(v, Content(req), app)
        && err == ErrAfter(v, InLimits(req), app)
      ensures open == OpenAfter(Heard(req), InLimits(req), left, app)
      ensures left > 0 ==> err == Ok
      ensures k <= |req| && refs == Held(old(refs), req, |old(req)|, k) && refs.Keys == old(refs).Keys
      ensures k < |req| ==> Heard(req).Post?
    {
      hide Answer, LeftAfter, ErrAfter, Parse, Visible, Content, Ids, Distinct;
      req := req + p;
      assert p[0] == req[|old(req)|];
      InAll(refs, req, |old(req)|);
      refs := refs[p[0].id := refs[p[0].id] + 1];
      assert AllOnHand();
      hide AllOnce;
      var v := Parse(Visible(req, maxReq));
      PostInContent(req, maxReq);
      err, k := ActOn(v, app);
    }

    /** http_send, as far as it matters here: sending may end the connection. */
    method Send(app: App)
      requires Valid() && !closed && left == 0
      modifies this
      ensures closed ==> !Seen(calls).Posting?
      ensures Valid() && left == 0 && calls == old(calls) && lent == old(lent) && heard == old(heard)
      ensures head == old(head)
      ensures closed == app.sendEnds && req == if closed then [] else old(req)
      ensures open == old(open) && refs.Keys <= old(refs).Keys
    {
      if app.sendEnds {
        CloseConn();
      }
    }

    /** http_close_or_abort_conn: a POST that is under way is finished first. */
    method CloseConn()
      requires Valid() && !closed
      modifies `req, `refs, `closed, `calls
      ensures Valid() && closed && req == [] && Seen(calls) != Broken && !Seen(calls).Posting?
      ensures calls == old(calls) + if left != 0 then [PostFinished] else []
      ensures refs.Keys <= old(refs).Keys
    {
      if left != 0 {
        SeenAppend(calls, [PostFinished]);
        StepsCons(Seen(calls), PostFinished, []);
        calls := calls + [PostFinished];
      }
      FreeRequest();
    }

    /** http_state_free */
    method FreeRequest()
      requires RefsMatch()
      modifies `req, `refs, `closed
      ensures RefsMatch() && closed && req == [] && refs.Keys <= old(refs).Keys
    {
      hide Owned, Freed;
      OwnedFreed(refs, req, lent);
      FreedKeys(refs, req);
      refs := Freed(refs, req);
      req := [];
      closed := true;
    }

    /** What is made of a request list. */
    function Heard(list: seq<Pbuf>): (v: Verdict)
      ensures v.Post? ==> v.headLength <= |Content(list)| && v.contentLength < 0x8000_0000
    {
      PostInContent(list, maxReq);
      Parse(Visible(list, maxReq))
    }

    /** http_recv when a POST is under way: the chain belongs to the application. */
    method RecvBody(p: seq<Pbuf>, app: App)
      requires Valid() && !closed && Arriving(p) && left > 0
      modifies this
      ensures Valid() && calls == old(calls) + BodyCalls(Content(p), old(left), app)
      ensures left == if app.takes && |Content(p)| < old(left) then old(left) - |Content(p)| else 0
      ensures left > 0 ==> !closed && heard == old(heard) + Content(p) && head == old(head) && open == old(open)
      ensures req == [] && open == if left == 0 then app.found else old(open)
      ensures (closed <==> left == 0 && app.sendEnds) && (closed ==> !Seen(calls).Posting?)
      ensures refs.Keys <= old(refs).Keys + Ids(p)
    {
      hide BodyCalls, Seen, Content, Ids, Distinct, Agrees, Owned, Connection.Taken;
      ghost var c0, r0, h0 := calls, refs, heard;
      BodyStep(calls, req, left, heard, head, Content(p), app);
      TakenByApplication(refs, req, p, lent);
      TakenKeys(refs, p);
      refs := Taken(refs, p);
      lent := lent + Ids(p);
      PostRxPbuf(Some(p), app);
      heard := if left > 0 then heard + Content(p) else [];
      if left == 0 {
        Send(app);
      }
    }

    /** http_recv when a request is expected. */
    method RecvRequest(p: seq<Pbuf>, app: App) returns (err: Err)
      requires Valid() && !closed && Arriving(p) && left == 0 && !open
      modifies this
      ensures Valid() && !closed == (err != Arg && !(err == Ok && left == 0 && app.sendEnds))
      ensures var list := old(req) + p;
        && calls == old(calls) + Answer(Heard(list), Content(list), InLimits(list), app)
        && left == LeftAfter(Heard(list), Content(list), app)
        && err == ErrAfter(Heard(list), InLimits(list), app)
        && req == (if err == InProgress then list else [])
        && (left > 0 ==> head == Heard(list).headLength)
        && (!Heard(list).Post? ==> lent == old(lent))
        && open == OpenAfter(Heard(list), InLimits(list), left, app)
      ensures left > 0 || req != [] ==> heard == old(heard) + Content(p) && !open
      ensures closed ==> !Seen(calls).Posting?
      ensures refs.Keys <= old(refs).Keys + Ids(p)
    {
      hide Answer, Seen, Content, Ids, Distinct, Freed, Held, AllOnce, Connection.Taken, Parse, Visible, Agrees, Owned;
      hide LeftAfter, OpenAfter, ErrAfter, Waits, Connection.Heard, Connection.InLimits;
      ghost var all, r0 := req + p, Taken(refs, p);
      AnswerStep(calls, req, heard, head, p, Heard(all), InLimits(all), app);
      NotYetOpen(Heard(all), Content(all), InLimits(all), app);
      TakenOnce(refs, req, p, lent);
      TakenKeys(refs, p);
      assert all[|req|..] == p;
      ghost var n := |req|;
      refs := Taken(refs, p);
      var k;
      err, k := ParseRequest(p, app);
      GiveBack(r0, all, n, k, lent);
      NoPart(all, k, lent);
      FreedKeys(refs, all);
      FreedKeys(refs, p);
      FreedKeys(Freed(refs, all), p);
      assert refs.Keys == r0.Keys;
      if err != InProgress {
        refs := Freed(refs, req);
        lent := lent + Ids(req[k..]);
        req := [];
      }
      refs := Freed(refs, p);
      heard := if err == InProgress || left > 0 then heard + Content(p) else [];
      head := if left > 0 then Heard(all).headLength else head;
      SendOrClose(err, app);
    }

    /** The end of http_recv: a response is sent, or a request that could not be answered closes
        the connection. */
    method SendOrClose(err: Err, app: App)
      requires Valid() && !closed && (err != Ok ==> left == 0)
      modifies this
      ensures Valid() && calls == old(calls) && left == old(left) && open == old(open)
      ensures lent == old(lent) && heard == old(heard) && head == old(head) && refs.Keys <= old(refs).Keys
      ensures closed <==> err == Arg || (err == Ok && left == 0 && app.sendEnds)
      ensures req == (if closed then [] else old(req)) && (closed ==> !Seen(calls).Posting?)
    {
      hide Seen, Agrees, Owned;
      if err == Ok {
        if left == 0 {
          Send(app);
        }
      } else if err == Arg {
        CloseConn();
      }
    }

    /** http_recv with data. */
    method Recv(p: seq<Pbuf>, app: App)
      requires Valid() && !closed && Arriving(p)
      modifies this
      ensures Valid()
      ensures Now() == Received(this, old(Now()), p, app)
      ensures !closed && (left > 0 || req != []) ==> heard == old(heard) + Content(p)
      ensures !closed ==> req == [] || req == old(req) + p
      ensures refs.Keys <= old(refs).Keys + Ids(p)
      ensures closed ==> !Seen(calls).Posting?
      ensures old(left) == 0 && old(open) ==> !closed && open && req == [] && refs == old(refs)
    {
      if left > 0 {
        RecvBody(p, app);
      } else if !open {
        var err := RecvRequest(p, app);
      } else {
        Dropped(refs, req, p, lent);
        hide *;
        refs := Freed(Taken(refs, p), p);
      }
    }

    /** http_err: the connection is gone, and a POST that is under way is not finished. */
    method Fail()
      requires Valid() && !closed
      modifies `req, `refs, `closed
      ensures Valid() && closed && req == [] && calls == old(calls) && refs.Keys <= old(refs).Keys
      ensures Seen(calls).Posting? <==> left != 0
    {
      FreeRequest();
    }
  }

  lemma NotYetOpen(v: Verdict, all: seq<byte>, inLimits: bool, app: App)
    requires v.Post? ==> v.headLength <= |all| && v.contentLength < 0x8000_0000
    ensures var left := LeftAfter(v, all, app); left > 0 || Waits(v, inLimits) ==> !OpenAfter(v, inLimits, left, app)
    ensures LeftAfter(v, all, app) > 0 ==> v.Post?
    ensures ErrAfter(v, inLimits, app) == InProgress <==> Waits(v, inLimits)
    ensures v.Post? ==> ErrAfter(v, inLimits, app) == Ok
  {
  }

  lemma PostInContent(req: seq<Pbuf>, maxReq: nat)
    ensures var v := Parse(Visible(req, maxReq));
            v.Post? ==> v.headLength <= |Content(req)| && v.contentLength < 0x8000_0000
  {
  }

  /** pbuf_remove_header */
  lemma HeaderHidden(chain: seq<Pbuf>, off: nat, k: nat, skip: nat)
    requires StartsAt(chain, off, k, skip) && k < |chain| && skip < |chain[k].payload|
    ensures Content([Pbuf(chain[k].id, chain[k].payload[skip..])] + chain[k + 1..]) == Content(chain)[off..]
  {
    var first := Pbuf(chain[k].id, chain[k].payload[skip..]);
    assert ([first] + chain[k + 1..])[1..] == chain[k + 1..];
    assert chain[k..][1..] == chain[k + 1..];
    assert Content(chain[k..]) == chain[k].payload + Content(chain[k + 1..]);
  }

  lemma NoIds()
    ensures Ids([]) == {} && Distinct([])
  {
  }

  ghost predicate Owned(refs: map<nat, nat>, list: seq<Pbuf>, lent: set<nat>) {
    && Distinct(list) && Ids(list) !! lent
    && refs.Keys == Ids(list) + lent
    && forall i :: i in refs ==> refs[i] == 1
  }

  lemma TakenOnce(refs: map<nat, nat>, req: seq<Pbuf>, p: seq<Pbuf>, lent: set<nat>)
    requires Owned(refs, req, lent) && Distinct(req + p) && Ids(p) !! refs.Keys
    ensures Owned(Connection.Taken(refs, p), req + p, lent) && AllOnce(Connection.Taken(refs, p), req + p)
  {
    IdsAppend(req, p);
    var r := Connection.Taken(refs, p);
    forall q | q in req + p ensures q.id in r && r[q.id] == 1 {
      assert q.id in Ids(req + p);
    }
  }

  /** Without its first `k` pbufs, the list belongs to the application. */
  lemma OwnedPart(refs: map<nat, nat>, list: seq<Pbuf>, lent: set<nat>, k: nat)
    requires Owned(refs, list, lent) && k <= |list|
    ensures Owned(refs - Ids(list[..k]), [], lent + Ids(list[k..]))
  {
    var a, b := Ids(list[..k]), Ids(list[k..]);
    assert Ids(list) == a + b by {
      assert list == list[..k] + list[k..];
      IdsAppend(list[..k], list[k..]);
    }
    IdsApart(list, k);
    NoIds();
    hide Ids, Distinct;
    assert (refs - a).Keys == b + lent;
  }

  lemma NewestOnce(refs: map<nat, nat>, list: seq<Pbuf>, p: nat)
    requires AllOnce(refs, list) && p < |list|
    ensures Freed(Held(refs, list, p, |list|), list[p..]) == refs
  {
    var id := list[p].id;
    assert list[p..][0] == list[p];
    InAll(refs, list, p);
    hide Freed, AllOnce;
    FreedOnce(refs[id := 2], list[p..]);
    assert refs[id := 2][id := 1] == refs;
  }

  lemma FreedOnce(refs: map<nat, nat>, list: seq<Pbuf>)
    requires list != [] && list[0].id in refs && refs[list[0].id] > 1
    ensures Freed(refs, list) == refs[list[0].id := refs[list[0].id] - 1]
  {
  }

  /** After the request has been acted on: the part of the list from `k` on stays, with the
      application. */
  lemma GiveBack(refs: map<nat, nat>, list: seq<Pbuf>, p: nat, k: nat, lent: set<nat>)
    requires Owned(refs, list, lent) && AllOnce(refs, list) && p < |list| && k <= |list|
    ensures Owned(Freed(Freed(Held(refs, list, p, k), list), list[p..]), [], lent + Ids(list[k..]))
    ensures k == |list| ==> Freed(Held(refs, list, p, k), list[p..]) == refs
  {
    hide Ids, Distinct, Freed, AllOnce, Held;
    assert Distinct(list);
    hide Owned;
    Balanced(refs, list, p, k);
    OwnedPart(refs, list, lent, k);
    NewestOnce(refs, list, p);
  }

  /** Freeing the whole list. */
  lemma OwnedFreed(refs: map<nat, nat>, list: seq<Pbuf>, lent: set<nat>)
    requires Owned(refs, list, lent)
    ensures Owned(Freed(refs, list), [], lent)
  {
    assert AllOnce(refs, list) by {
      forall q | q in list ensures q.id in refs {
        assert q.id in Ids(list);
      }
    }
    var none: seq<Pbuf> := [];
    assert list + none == list && list[..|list|] == list && list[|list|..] == none;
    OwnedPart(refs, list, lent, |list|);
    NoIds();
    hide Ids, Distinct, Freed, AllOnce;
    FreedRun(refs, list, none) by { assert Distinct(list); }
    hide Owned;
    assert lent + {} == lent;
  }

  lemma TakenByApplication(refs: map<nat, nat>, req: seq<Pbuf>, p: seq<Pbuf>, lent: set<nat>)
    requires Owned(refs, req, lent) && Distinct(req + p) && Ids(p) !! refs.Keys && req == []
    ensures Owned(Connection.Taken(refs, p), [], lent + Ids(p))
    ensures Content(req + p) == Content(p)
  {
    TakenOnce(refs, req, p, lent);
    assert req + p == p;
    OwnedPart(Connection.Taken(refs, p), p, lent, 0);
    assert p[0..] == p && p[..0] == [];
    NoIds();
    hide *;
    var r: map<nat, nat> := Connection.Taken(refs, p);
    assert r - {} == r;
  }

  lemma Dropped(refs: map<nat, nat>, req: seq<Pbuf>, p: seq<Pbuf>, lent: set<nat>)
    requires Owned(refs, req, lent) && Distinct(req + p) && Ids(p) !! refs.Keys
    ensures Freed(Connection.Taken(refs, p), p) == refs
  {
    hide Distinct, AllOnce, Owned, Freed, Connection.Taken, Ids;
    var r: map<nat, nat> := Connection.Taken(refs, p);
    var none: seq<Pbuf> := [];
    TakenOnce(refs, req, p, lent);
    OnceBehind(r, req, p);
    assert p + none == p;
    FreedRun(r, p, none);
    TakenBack(refs, p);
  }

  lemma OnceBehind(refs: map<nat, nat>, a: seq<Pbuf>, b: seq<Pbuf>)
    requires Distinct(a + b) && AllOnce(refs, a + b)
    ensures Distinct(b) && AllOnce(refs, b)
  {
    assert forall i :: 0 <= i < |b| ==> b[i] == (a + b)[|a| + i];
  }

  lemma TakenBack(refs: map<nat, nat>, p: seq<Pbuf>)
    requires Ids(p) !! refs.Keys
    ensures Connection.Taken(refs, p) - Ids(p) == refs
  {
    hide Ids;
  }

  lemma TakenKeys(refs: map<nat, nat>, p: seq<Pbuf>)
    ensures Connection.Taken(refs, p).Keys == refs.Keys + Ids(p)
  {
  }

  lemma {:induction false} FreedKeys(refs: map<nat, nat>, p: seq<Pbuf>)
    ensures Freed(refs, p).Keys <= refs.Keys
    decreases |p|
  {
    if p != [] && p[0].id in refs && refs[p[0].id] <= 1 {
      FreedKeys(refs - {p[0].id}, p[1..]);
    }
  }

  lemma NoPart(list: seq<Pbuf>, k: nat, lent: set<nat>)
    requires k <= |list|
    ensures k == |list| ==> lent + Ids(list[k..]) == lent
  {
  }

  lemma IdsApart(list: seq<Pbuf>, k: nat)
    requires Distinct(list) && k <= |list|
    ensures Ids(list[..k]) !! Ids(list[k..])
  {
    forall i: nat | k <= i < |list| ensures list[i].id !in Ids(list[..k]) {
      NotAmong(list, k, i);
    }
  }

  lemma NoContent()
    ensures Content([]) == []
  {
  }
}
