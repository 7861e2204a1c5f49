/**
 * Zero-copy reception of src/utility/ethernetif.cpp. There are twice as many frame buffers as
 * receive descriptors; a buffer is in a descriptor, in the ring of spare buffers, or inside a
 * pbuf that the stack has not freed. Buffers are named by their index in Rx_Buff.
 */
module RxPath {
  import opened Prelude
  import opened RingQueue

  const ETH_RX_BUF_SIZE := 1524

  datatype RxDesc = RxDesc(own: bool, buf: nat)

  /** A custom pbuf around a frame buffer. */
  datatype RxPbuf = RxPbuf(buf: nat, len: u16)

  /** The ways out of low_level_input. */
  datatype Outcome = NoFrame | BadFrame | PoolEmpty | NoPbuf | QueueEmpty | Received(p: RxPbuf)

  function Bufs(held: seq<RxPbuf>): (r: seq<nat>)
    ensures |r| == |held| && forall k :: 0 <= k < |held| ==> r[k] == held[k].buf
  {
    seq(|held|, k requires 0 <= k < |held| => held[k].buf)
  }

  /** The bytes of each pbuf. */
  function BytesOf(memory: seq<seq<byte>>, held: seq<RxPbuf>): (r: seq<seq<byte>>)
    ensures |r| == |held|
    ensures forall k :: 0 <= k < |held| && held[k].buf < |memory| ==> r[k] == memory[held[k].buf]
  {
    seq(|held|, k requires 0 <= k < |held| => if held[k].buf < |memory| then memory[held[k].buf] else [])
  }

  function DescBufs(descs: seq<RxDesc>): (r: seq<nat>)
    ensures |r| == |descs| && forall k :: 0 <= k < |descs| ==> r[k] == descs[k].buf
  {
    seq(|descs|, k requires 0 <= k < |descs| => descs[k].buf)
  }

  /** Every buffer once. */
  function AllBufs(n: nat): (r: seq<nat>)
    ensures |r| == n && forall k :: 0 <= k < n ==> r[k] == k
  {
    seq(n, k => k)
  }

  /** Descriptors, spare ring and held pbufs together have each buffer exactly once. */
  ghost predicate Conserved(inDescs: seq<nat>, spare: seq<nat>, inPbufs: seq<nat>) {
    multiset(inDescs) + multiset(spare) + multiset(inPbufs) == multiset(AllBufs(2 * |inDescs|))
  }

  lemma CountIn(s: seq<nat>, x: nat)
    ensures (exists k :: 0 <= k < |s| && s[k] == x) <==> multiset(s)[x] > 0
  {
    assert x in s <==> x in multiset(s);
  }

  lemma {:induction false} AllBufsOnce(n: nat, x: nat)
    ensures multiset(AllBufs(n))[x] == if x < n then 1 else 0
  {
    if n > 0 {
      AllBufsOnce(n - 1, x);
      assert AllBufs(n) == AllBufs(n - 1) + [n - 1];
    }
  }

  lemma {:induction false} TwiceCounts(s: seq<nat>, i: nat, j: nat)
    requires i < j < |s| && s[i] == s[j]
    ensures multiset(s)[s[i]] >= 2
  {
    assert s == s[..j] + [s[j]] + s[j + 1..];
    assert s[..j][i] == s[i];
    assert s[i] in multiset(s[..j]);
  }

  lemma EachOnce(d: seq<nat>, spare: seq<nat>, h: seq<nat>, b: nat)
    requires Conserved(d, spare, h)
    ensures multiset(d)[b] + multiset(spare)[b] + multiset(h)[b] == if b < 2 * |d| then 1 else 0
  {
    AllBufsOnce(2 * |d|, b);
    assert (multiset(d) + multiset(spare) + multiset(h))[b] == multiset(AllBufs(2 * |d|))[b];
  }

  ghost predicate Distinct(s: seq<nat>) {
    forall i, k :: 0 <= i < k < |s| ==> s[i] != s[k]
  }

  ghost predicate Apart(s: seq<nat>, t: seq<nat>) {
    forall x :: x in s ==> x !in t
  }

  lemma ApartAndDistinct(d: seq<nat>, spare: seq<nat>, h: seq<nat>)
    requires Conserved(d, spare, h)
    ensures Distinct(d) && Distinct(spare) && Distinct(h)
    ensures Apart(d, spare) && Apart(d, h) && Apart(spare, h)
  {
    forall s, i, k | (s == d || s == spare || s == h) && 0 <= i < k < |s| ensures s[i] != s[k] {
      if s[i] == s[k] { TwiceCounts(s, i, k); EachOnce(d, spare, h, s[i]); assert false; }
    }
    forall x | x in d ensures x !in spare && x !in h {
      EachOnce(d, spare, h, x);
      CountIn(d, x);
      CountIn(spare, x);
      CountIn(h, x);
    }
    forall x | x in spare ensures x !in h {
      EachOnce(d, spare, h, x);
      CountIn(spare, x);
      CountIn(h, x);
    }
  }

  /** What conservation means buffer by buffer: whatever is in a descriptor is neither spare
      nor held by the stack, no two places hold the same buffer, and nothing is lost. */
  lemma ConservedMeans(d: seq<nat>, spare: seq<nat>, h: seq<nat>)
    requires Conserved(d, spare, h)
    ensures |spare| + |h| == |d|
    ensures Distinct(d) && Distinct(spare) && Distinct(h)
    ensures Apart(d, spare) && Apart(d, h) && Apart(spare, h)
    ensures forall b: nat :: b < 2 * |d| <==> b in d || b in spare || b in h
  {
    ApartAndDistinct(d, spare, h);
    assert |multiset(d) + multiset(spare) + multiset(h)| == |d| + |spare| + |h|;
    forall b: nat ensures b < 2 * |d| <==> b in d || b in spare || b in h {
      EachOnce(d, spare, h, b);
      CountIn(d, b);
      CountIn(spare, b);
      CountIn(h, b);
    }
  }

  lemma SwapConserves(d: seq<nat>, i: nat, spare: seq<nat>, h: seq<nat>)
    requires Conserved(d, spare, h) && i < |d| && spare != []
    ensures Conserved(d[i := spare[0]], spare[1..], h + [d[i]])
  {
    assert spare == [spare[0]] + spare[1..];
  }

  lemma FreeConserves(d: seq<nat>, spare: seq<nat>, h: seq<nat>, k: nat)
    requires Conserved(d, spare, h) && k < |h|
    ensures Conserved(d, spare + [h[k]], h[..k] + h[k + 1..])
  {
    assert h == h[..k] + [h[k]] + h[k + 1..];
  }

  /** The ring of the upper half of the buffers, as low_level_init fills it. */
  method SpareRing(n: nat) returns (q: Queue<nat>)
    requires 0 < n < 0x4000_0000
    ensures fresh(q) && fresh(q.items) && q.Valid() && q.capacity == n
    ensures |q.Contents()| == n && forall k :: 0 <= k < n ==> q.Contents()[k] == n + k
  {
    var slots := new nat[n](_ => 0);
    q := new Queue<nat>(slots);
    for i := 0 to n
      invariant q.Valid() && q.items == slots
      invariant |q.Contents()| == i && forall k :: 0 <= k < i ==> q.Contents()[k] == n + k
    {
      var _ := q.Put(n + i);
    }
  }

  /** What HAL_ETH_GetReceivedFrame_IT reports: the first of the descriptors that hold a frame,
      their number, and the length of the frame. */
  datatype Report = Report(first: nat, segments: nat, length: u16)

  /** One thing that can happen: the DMA engine fills an owned descriptor; ethernetif_input looks
      for a frame, with what is reported, with a pbuf left or not, and with the answer of the
      stack; or the stack frees its k-th pbuf. */
  datatype Step =
    | DmaFills(i: nat, frame: seq<byte>)
    | DriverPolls(report: Option<Report>, made: bool, stackTakes: bool)
    | StackFrees(k: nat)

  /** The descriptors, the frame buffers, the stack's pbufs with the bytes they were handed over
      with, and the spare buffers in order. */
  datatype View =
    View(descs: seq<RxDesc>, memory: seq<seq<byte>>, held: seq<RxPbuf>, frames: seq<seq<byte>>, spare: seq<nat>)

  function Without<T>(s: seq<T>, k: nat): (r: seq<T>)
    requires k < |s|
  {
    s[..k] + s[k + 1..]
  }

  /** `count` descriptors from `first` on, round the ring, are given to the engine. */
  function Released(descs: seq<RxDesc>, first: nat, count: nat): (r: seq<RxDesc>)
    ensures |r| == |descs|
    ensures forall k :: 0 <= k < |descs| ==>
              r[k] == if first <= k < first + count || k + |descs| < first + count then descs[k].(own := true)
                      else descs[k]
  {
    seq(|descs|, k requires 0 <= k < |descs| =>
      if first <= k < first + count || k + |descs| < first + count then descs[k].(own := true) else descs[k])
  }

  /** What a step does, and the answer to a poll. */
  function Next(v: View, step: Step): (r: (View, Outcome)) {
    match step
    case DmaFills(i, frame) =>
      if i >= |v.descs| || !v.descs[i].own || v.descs[i].buf >= |v.memory| then (v, NoFrame)
      else (v.(memory := v.memory[v.descs[i].buf := frame], descs := v.descs[i := v.descs[i].(own := false)]), NoFrame)
    case DriverPolls(None, _, _) => (v, NoFrame)
    case DriverPolls(Some(r), made, stackTakes) =>
      if r.first >= |v.descs| || v.descs[r.first].buf >= |v.memory| then (v, NoFrame) else
        var back := v.(descs := Released(v.descs, r.first, r.segments));
        if r.length == 0 || r.length > ETH_RX_BUF_SIZE || r.segments != 1 then (back, BadFrame)
        else if !made then (back, NoPbuf)
        else if v.spare == [] then (back, QueueEmpty)
        else
          var p := RxPbuf(v.descs[r.first].buf, r.length);
          (Taken(back.(descs := back.descs[r.first := RxDesc(true, v.spare[0])]), p, stackTakes), Received(p))
    case StackFrees(k) =>
      if k >= |v.held| || k >= |v.frames| then (v, NoFrame)
      else (v.(held := Without(v.held, k), frames := Without(v.frames, k), spare := v.spare + [v.held[k].buf]), NoFrame)
  }

  /** A frame goes to the stack, which keeps it or refuses it. */
  function Taken(v: View, p: RxPbuf, stackTakes: bool): (r: View)
    requires v.spare != [] && p.buf < |v.memory|
  {
    if stackTakes then v.(held := v.held + [p], frames := v.frames + [v.memory[p.buf]], spare := v.spare[1..])
    else v.(spare := v.spare[1..] + [p.buf])
  }

  function Views(v: View, steps: seq<Step>): (r: (View, seq<Outcome>))
    decreases |steps|
  {
    if steps == [] then (v, []) else
      var before := Views(v, steps[..|steps| - 1]);
      var now := Next(before.0, steps[|steps| - 1]);
      (now.0, before.1 + [now.1])
  }

  lemma ViewsMore(v: View, steps: seq<Step>, n: nat)
    requires n < |steps|
    ensures var before := Views(v, steps[..n]);
            var now := Next(before.0, steps[n]);
            Views(v, steps[..n + 1]) == (now.0, before.1 + [now.1])
  {
    hide Next;
    assert steps[..n + 1][..n] == steps[..n];
  }

  /** The report is about descriptors of a ring of `n`. */
  predicate InRing(n: nat, report: Option<Report>) {
    report.Some? ==> report.value.first < n && 0 < report.value.segments <= n
  }

  class RxDriver {
    /** DMARxDscrTab */
    const descs: array<RxDesc>
    /** rx_buf_queue */
    const spare: Queue<nat>
    /** Elements taken from RX_POOL, which has two per descriptor. */
    var poolUsed: nat
    /** Rx_Buff */
    const memory: array<seq<byte>>
    /** The pbufs that the stack has been given and has not freed, with their bytes at the time
        they were handed over. */
    var held: seq<RxPbuf>
    ghost var handed: map<nat, seq<byte>>

    ghost predicate Valid()
      reads this, descs, spare, spare.items, memory
    {
      && 0 < descs.Length < 0x4000_0000 && memory.Length == 2 * descs.Length
      && spare.Valid() && spare.capacity == descs.Length
      && Conserved(DescBufs(descs[..]), spare.Contents(), Bufs(held))
      && poolUsed == |held|
      && forall k :: 0 <= k < |held| ==> Intact(held[k])
    }

    /** The bytes that the stack was given are still there. */
    ghost predicate Intact(p: RxPbuf)
      reads this, memory
    {
      p.buf < memory.Length && p.buf in handed && memory[p.buf] == handed[p.buf]
    }

    /** low_level_init: buffer i in descriptor i, the rest spare. */
    constructor (n: nat)
      requires 0 < n < 0x4000_0000
      ensures Valid() && descs.Length == n && held == [] && fresh(descs) && fresh(spare) && fresh(spare.items)
      ensures fresh(memory)
    {
      var q := SpareRing(n);
      spare := q;
      descs := new RxDesc[n](k => RxDesc(true, k));
      memory := new seq<byte>[2 * n](_ => []);
      poolUsed := 0;
      held, handed := [], map[];
      new;
      assert DescBufs(descs[..]) + spare.Contents() == AllBufs(2 * n);
      assert Bufs(held) == [];
    }

    /** low_level_input. A frame is handed over exactly when it lies in one descriptor, with 1 to
        1524 bytes, and a pbuf and a spare buffer are left: in its own buffer, whose place in the
        descriptor a spare one takes. Every other way out leaves all buffers where they are, and
        in all cases the descriptors go back to the engine. RX_POOL is never found empty. */
    method Input(report: Option<Report>, made: bool) returns (out: Outcome)
      requires Valid() && InRing(descs.Length, report)
      modifies this, descs, spare
      ensures Valid() && out != PoolEmpty && (out == NoFrame <==> report == None)
      ensures report.Some? ==> (out == BadFrame <==>
                report.value.length == 0 || report.value.length > 1524 || report.value.segments != 1)
      ensures report.Some? && out != BadFrame ==>
                (out == NoPbuf <==> !made) && (out == QueueEmpty <==> made && |old(held)| == descs.Length)
                && (out.Received? <==> made && |old(held)| < descs.Length)
      ensures out.Received? ==> out.p == RxPbuf(old(descs[report.value.first].buf), report.value.length)
      ensures out.Received? ==> held == old(held) + [out.p]
      ensures out.Received? ==> old(spare.Contents()) != [] && spare.Contents() == old(spare.Contents())[1..]
      ensures out.Received? ==> out.p.buf < memory.Length && handed == old(handed)[out.p.buf := memory[out.p.buf]]
      ensures !out.Received? ==> held == old(held) && handed == old(handed)
      ensures !out.Received? ==> spare.Contents() == old(spare.Contents())
      ensures report == None ==> descs[..] == old(descs[..])
      ensures report.Some? && !out.Received? ==>
                descs[..] == Released(old(descs[..]), report.value.first, report.value.segments)
      ensures out.Received? ==>
                descs[..] == Released(old(descs[..]), report.value.first, 1)
                             [report.value.first := RxDesc(true, old(spare.Contents())[0])]
    {
      if report == None {
        return NoFrame;
      }
      hide RxDriver.Valid, Around;
      out := TakeFrame(report.value.first, report.value.segments, report.value.length, made);
      ReleaseToDma(report.value.first, report.value.segments);
    }

    /** The spare ring is empty only when the stack holds as many pbufs as there are descriptors,
        and RX_POOL never is. */
    lemma Room()
      requires Valid()
      ensures poolUsed < 2 * descs.Length && |spare.Contents()| + |held| == descs.Length
    {
      ConservedMeans(DescBufs(descs[..]), spare.Contents(), Bufs(held));
    }

    /** The last part of low_level_input: the descriptors of the frame go back to the engine. */
    method ReleaseToDma(first: nat, segments: nat)
      requires Valid() && first < descs.Length && segments <= descs.Length
      modifies descs
      ensures Valid() && descs[..] == Released(old(descs[..]), first, segments)
    {
      ghost var was, bufs := descs[..], DescBufs(descs[..]);
      var i: nat, at: nat := 0, first;
      while i < segments
        invariant i <= segments && at < descs.Length && (at == first + i || at + descs.Length == first + i)
        invariant descs[..] == Released(was, first, i)
      {
        descs[at] := descs[at].(own := true);
        at := if at + 1 == descs.Length then 0 else at + 1;
        i := i + 1;
      }
      assert DescBufs(descs[..]) == bufs;
    }

    /** The part of low_level_input between frame and descriptors. */
    method TakeFrame(first: nat, segments: nat, length: u16, made: bool) returns (out: Outcome)
      requires Valid() && first < descs.Length
      modifies this, descs, spare
      ensures Valid() && out != NoFrame && out != PoolEmpty
      ensures out == BadFrame <==> length == 0 || length > 1524 || segments != 1
      ensures out != BadFrame ==>
                (out == NoPbuf <==> !made) && (out == QueueEmpty <==> made && |old(held)| == descs.Length)
                && (out.Received? <==> made && |old(held)| < descs.Length)
      ensures out.Received? ==> out.p == RxPbuf(old(descs[first].buf), length) && held == old(held) + [out.p]
      ensures out.Received? ==> old(spare.Contents()) != [] && spare.Contents() == old(spare.Contents())[1..]
      ensures out.Received? ==> out.p.buf < memory.Length && handed == old(handed)[out.p.buf := memory[out.p.buf]]
      ensures out.Received? ==>
                descs[..] == old(descs[..])[first := RxDesc(old(descs[first].own), old(spare.Contents())[0])]
      ensures !out.Received? ==> held == old(held) && handed == old(handed)
      ensures !out.Received? ==> descs[..] == old(descs[..]) && spare.Contents() == old(spare.Contents())
    {
      hide Conserved, Around;
      ghost var d, s, h := DescBufs(descs[..]), spare.Contents(), Bufs(held);
      if length == 0 || length > ETH_RX_BUF_SIZE || segments != 1 {
        return BadFrame;
      }
      Room();
      if poolUsed == 2 * descs.Length {
        return PoolEmpty;
      }
      ConservedMeans(d, s, h);
      poolUsed := poolUsed + 1;
      if !made { // pbuf_alloced_custom
        poolUsed := poolUsed - 1;
        return NoPbuf;
      }
      if spare.IsEmpty() {
        poolUsed := poolUsed - 1;
        return QueueEmpty;
      }
      var p := RxPbuf(descs[first].buf, length);
      var newBuf := spare.Get();
      SwapConserves(d, first, s, h);
      descs[first] := descs[first].(buf := newBuf.value);
      assert DescBufs(descs[..]) == d[first := s[0]];
      assert p.buf in d;
      held, handed := held + [p], handed[p.buf := memory[p.buf]];
      assert Bufs(held) == h + [p.buf];
      return Received(p);
    }

    /** lwip_custom_pbuf_free for a pbuf that the stack holds: its buffer goes to the back of
        the spare ring. The ring is never full, whether its counters have wrapped or not. */
    method FreePbuf(k: nat) returns (ok: bool)
      requires Valid() && k < |held|
      modifies this, spare, spare.items
      ensures Valid()
      ensures ok && spare.Contents() == old(spare.Contents()) + [old(held[k].buf)]
      ensures held == old(held[..k] + held[k + 1..]) && handed == old(handed)
    {
      ghost var d, s, h := DescBufs(descs[..]), spare.Contents(), Bufs(held);
      ConservedMeans(d, s, h);
      FreeConserves(d, s, h, k);
      hide Conserved;
      ok := spare.Put(held[k].buf);
      poolUsed := poolUsed - 1;
      held := held[..k] + held[k + 1..];
      assert Bufs(held) == h[..k] + h[k + 1..];
    }

    /** The DMA engine writes a frame into the buffer of a descriptor it owns and gives the
        descriptor back. It never touches a buffer that the stack holds. */
    method DmaFill(i: nat, frame: seq<byte>)
      requires Valid() && i < descs.Length && descs[i].own
      modifies descs, memory
      ensures var b := old(descs[i].buf);
        Valid() && b < memory.Length && memory[..] == old(memory[..])[b := frame]
      ensures descs[..] == old(descs[..])[i := old(descs[i]).(own := false)]
      ensures forall k :: 0 <= k < |held| ==>
              held[k].buf < memory.Length && memory[held[k].buf] == old(memory[held[k].buf])
    {
      ghost var d := DescBufs(descs[..]);
      ConservedMeans(d, spare.Contents(), Bufs(held));
      hide Conserved;
      assert descs[i].buf in d;
      forall k | 0 <= k < |held| ensures held[k].buf != descs[i].buf {
        assert Bufs(held)[k] in Bufs(held);
      }
      memory[descs[i].buf] := frame;
      descs[i] := descs[i].(own := false);
      assert DescBufs(descs[..]) == d;
    }

    /** Everything there is, with the stack's bytes as they stand in memory. */
    ghost function Now(): (r: View)
      reads this, descs, spare, spare.items, memory
      requires Valid()
    {
      View(descs[..], memory[..], held, BytesOf(memory[..], held), spare.Contents())
    }

    /** One step. */
    method TakeStep(step: Step) returns (out: Outcome)
      requires Valid() && (step.DriverPolls? ==> InRing(descs.Length, step.report))
      modifies this, descs, memory, spare, spare.items
      ensures Valid() && (Now(), out) == Next(old(Now()), step)
    {
      hide Conserved, Around;
      out := NoFrame;
      ghost var was := Now();
      BuffersInMemory();
      match step
      case DmaFills(i, frame) =>
        if i < descs.Length && descs[i].own {
          DmaFill(i, frame);
          assert Now().frames == was.frames;
        }
      case DriverPolls(report, made, stackTakes) =>
        out := Poll(report, made, stackTakes);
      case StackFrees(k) =>
        if k < |held| {
          var _ := FreePbuf(k);
          assert Now().frames == Without(was.frames, k);
        }
    }

    lemma BuffersInMemory()
      requires Valid()
      ensures forall k :: 0 <= k < descs.Length ==> descs[k].buf < memory.Length
    {
      ConservedMeans(DescBufs(descs[..]), spare.Contents(), Bufs(held));
      forall k | 0 <= k < descs.Length ensures descs[k].buf < memory.Length {
        assert DescBufs(descs[..])[k] in DescBufs(descs[..]);
      }
    }

    /** One round of ethernetif_input. */
    method Poll(report: Option<Report>, made: bool, stackTakes: bool) returns (out: Outcome)
      requires Valid() && InRing(descs.Length, report)
      modifies this, descs, spare, spare.items
      ensures Valid() && (Now(), out) == Next(old(Now()), DriverPolls(report, made, stackTakes))
    {
      hide Conserved, Around;
      ghost var was := Now();
      BuffersInMemory();
      Room();
      out := Input(report, made);
      if out.Received? {
        assert Now().frames == was.frames + [was.memory[out.p.buf]];
        if !stackTakes {
          var _ := FreePbuf(|held| - 1);
          assert held == was.held && Now().frames == was.frames;
        }
      }
    }

    /** Any run, answer by answer: the stack holds what it was handed and has not freed, with the
        bytes that were handed over, and the spare ring is first in, first out. */
    method Run(steps: seq<Step>) returns (outs: seq<Outcome>)
      requires Valid()
      requires forall k :: 0 <= k < |steps| && steps[k].DriverPolls? ==> InRing(descs.Length, steps[k].report)
      modifies this, descs, memory, spare, spare.items
      ensures Valid() && (Now(), outs) == Views(old(Now()), steps)
    {
      hide Conserved, Around, RxDriver.Valid, Next, Views;
      outs := [];
      ghost var start := Now();
      assert steps[..0] == [] && Views(start, []) == (start, []) by {
        NoSteps(start);
      }
      for n := 0 to |steps|
        invariant Valid() && (Now(), outs) == Views(start, steps[..n])
      {
        ViewsMore(start, steps, n);
        var out := TakeStep(steps[n]);
        outs := outs + [out];
      }
      assert steps[..|steps|] == steps;
    }
  }

  lemma NoSteps(v: View)
    ensures Views(v, []) == (v, [])
  {
  }
}
