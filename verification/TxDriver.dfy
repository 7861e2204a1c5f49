/**
 * Zero-copy transmission of src/utility/ethernetif.cpp: low_level_output puts the segments of
 * a pbuf chain into consecutive descriptors, keeps the chain alive through a reference in
 * tx_free_queue, and drops those references when every descriptor is idle. The DMA engine
 * takes descriptors in ring order whenever it likes.
 */
module TxPath {
  import opened Prelude
  import opened RingQueue
  import opened TxFraming

  const ETH_TX_BUF_SIZE := 1524

  datatype TxDesc = TxDesc(own: bool, first: bool, last: bool, seg: Segment)

  datatype Err = ErrOk | ErrUse | ErrNoBufs

  /** A chain handed to the driver: its first pbuf, and the length of each segment. */
  datatype Chain = Chain(pbuf: nat, lens: seq<nat>)

  function Frame(c: Chain): (r: seq<Segment>)
    ensures |r| == |c.lens| && forall k :: 0 <= k < |r| ==> r[k] == Segment(c.pbuf, k, c.lens[k])
  {
    seq(|c.lens|, k requires 0 <= k < |c.lens| => Segment(c.pbuf, k, c.lens[k]))
  }

  /** The chain of an output call; the underflow poll has an empty one. */
  function ChainOf(c: Option<Chain>): (r: Chain) {
    if c.Some? then c.value else Chain(0, [])
  }

  function Slot(from: nat, k: nat, n: nat): (r: nat)
    requires from < n && k <= n
    ensures r < n
  {
    if from + k < n then from + k else from + k - n
  }

  /** Every slot is at one distance from `from`. */
  function Distance(from: nat, i: nat, n: nat): (k: nat)
    requires from < n && i < n
    ensures k < n && Slot(from, k, n) == i
  {
    if i >= from then i - from else i + n - from
  }

  function ToEntry(d: TxDesc): Entry {
    Entry(d.first, d.last, d.seg)
  }

  /** The `count` entries from slot `from` on. */
  function Window(descs: seq<TxDesc>, from: nat, count: nat): (r: seq<Entry>)
    requires from < |descs| && count <= |descs|
    ensures |r| == count && forall k :: 0 <= k < count ==> r[k] == ToEntry(descs[Slot(from, k, |descs|)])
  {
    seq(count, k requires 0 <= k < count => ToEntry(descs[Slot(from, k, |descs|)]))
  }

  /** Exactly the `busy` descriptors from `from` on belong to the DMA engine. */
  ghost predicate OwnedRun(descs: seq<TxDesc>, from: nat, busy: nat)
    requires from < |descs|
  {
    busy <= |descs| && forall i :: 0 <= i < |descs| ==> (descs[i].own <==> Distance(from, i, |descs|) < busy)
  }

  /** Every entry under way points into a pbuf that the free queue still refers to. */
  ghost predicate Kept(entries: seq<Entry>, queue: seq<nat>) {
    forall k :: 0 <= k < |entries| ==> entries[k].seg.pbuf in queue
  }

  lemma RunShrinks(descs: seq<TxDesc>, from: nat, busy: nat)
    requires from < |descs| && OwnedRun(descs, from, busy) && busy > 0
    ensures var after := descs[from := descs[from].(own := false)];
            var next := Slot(from, 1, |descs|);
            && OwnedRun(after, next, busy - 1)
            && Window(after, next, busy - 1) == Window(descs, from, busy)[1..]
            && Slot(next, busy - 1, |descs|) == Slot(from, busy, |descs|)
  {
  }

  lemma RunGrows(descs: seq<TxDesc>, from: nat, busy: nat, d: TxDesc)
    requires from < |descs| && OwnedRun(descs, from, busy) && busy < |descs| && d.own
    ensures var after := descs[Slot(from, busy, |descs|) := d];
            && OwnedRun(after, from, busy + 1)
            && Window(after, from, busy + 1) == Window(descs, from, busy) + [ToEntry(d)]
            && Slot(Slot(from, busy, |descs|), 1, |descs|) == Slot(from, busy + 1, |descs|)
  {
  }

  lemma RunKept(descs: seq<TxDesc>, from: nat, busy: nat, k: nat, d: TxDesc)
    requires from < |descs| && OwnedRun(descs, from, busy) && !d.own && busy + k < |descs|
    ensures var i := Slot(Slot(from, busy, |descs|), k, |descs|);
            var after := descs[i := d];
            !descs[i].own && OwnedRun(after, from, busy) && Window(after, from, busy) == Window(descs, from, busy)
  {
    assert Slot(Slot(from, busy, |descs|), k, |descs|) == Slot(from, busy + k, |descs|);
  }

  /** Walking the ring from the run's end meets free descriptors first, then the run. */
  lemma OwnedAfterFree(descs: seq<TxDesc>, from: nat, busy: nat, k: nat)
    requires from < |descs| && OwnedRun(descs, from, busy) && k < |descs|
    ensures descs[Slot(Slot(from, busy, |descs|), k, |descs|)].own <==> k + busy >= |descs|
  {
  }

  lemma NextSlots(from: nat, k: nat, n: nat)
    requires from < n && k < n
    ensures Slot(Slot(from, k, n), 1, n) == Slot(from, if k + 1 < n then k + 1 else 0, n)
    ensures k + 1 == n ==> Slot(from, 0, n) == Slot(from, n, n)
    ensures forall j :: 0 <= j < n && j != k ==> Slot(from, j, n) != Slot(from, k, n)
    ensures Slot(from, 0, n) == from
  {
  }

  /** The free queue after a put that was not refused. */
  function Queued(queue: seq<nat>, capacity: nat, pbuf: nat): (r: seq<nat>)
    ensures |r| == |queue| + 1
  {
    if |queue| < capacity || queue == [] then queue + [pbuf] else [pbuf] + queue[1..] + [pbuf]
  }

  lemma KeptWithMore(entries: seq<Entry>, queue: seq<nat>, c: Chain)
    requires Kept(entries, queue)
    ensures Kept(entries, queue + [c.pbuf]) && Kept(entries + Marked(Frame(c)), queue + [c.pbuf])
  {
    var all, more := queue + [c.pbuf], entries + Marked(Frame(c));
    assert all[|queue|] == c.pbuf;
    forall k | 0 <= k < |entries| ensures entries[k].seg.pbuf in all {
      assert entries[k].seg.pbuf in queue;
    }
    forall k | 0 <= k < |more| ensures more[k].seg.pbuf in all {
      if k < |entries| {
        assert more[k] == entries[k];
      } else {
        assert more[k].seg.pbuf == c.pbuf;
      }
    }
  }

  lemma FitsBehind(kept: seq<nat>, capacity: nat, pbuf: nat)
    ensures |kept| < capacity ==> Queued(kept, capacity, pbuf) == kept + [pbuf]
  {
  }

  class TxDriver {
    /** DMATxDscrTab */
    const descs: array<TxDesc>
    /** EthHandle.TxDesc */
    var txDesc: nat
    /** tx_free_queue */
    const queue: Queue<nat>
    /** Reference counts of all pbufs; a pbuf without one has been released. */
    var refs: multiset<nat>
    /** The references that the rest of the stack holds. */
    var outside: multiset<nat>
    /** The engine's position, how many descriptors it owns, and what it has taken so far. */
    var dma: nat
    var busy: nat
    ghost var taken: seq<Entry>
    /** The chains whose output call succeeded. */
    ghost var accepted: seq<seq<Segment>>

    ghost predicate RingValid()
      reads `txDesc, `dma, `busy, `taken, `accepted, descs
    {
      && RingShape() && NoneEmpty(accepted)
      && taken + Window(descs[..], dma, busy) == AllMarked(accepted)
    }

    /** The engine owns one run of the ring, which ends just before txDesc. */
    ghost predicate RingShape()
      reads `txDesc, `dma, `busy, descs
    {
      && 0 < descs.Length < 0x4000_0000 && txDesc < descs.Length && dma < descs.Length && busy <= descs.Length
      && txDesc == Slot(dma, busy, descs.Length)
      && OwnedRun(descs[..], dma, busy)
    }

    /** What the engine has been given and has not taken. */
    ghost function UnderWay(): (r: seq<Entry>)
      reads `txDesc, `dma, `busy, descs
      requires RingShape()
    {
      Window(descs[..], dma, busy)
    }

    ghost predicate Valid()
      reads this, descs, queue, queue.items
    {
      && RingValid()
      && queue.Valid() && queue.capacity == descs.Length && |queue.Contents()| <= descs.Length
      && Kept(UnderWay(), queue.Contents())
      && refs == outside + multiset(queue.Contents())
    }

    constructor (n: nat)
      requires 0 < n < 0x4000_0000
      ensures Valid() && descs.Length == n && accepted == [] && taken == [] && refs == multiset{}
      ensures busy == 0 && queue.putCnt == queue.getCnt == 0
      ensures fresh(descs) && fresh(queue) && fresh(queue.items)
    {
      var slots := new nat[n](_ => 0);
      queue := new Queue<nat>(slots);
      descs := new TxDesc[n](_ => TxDesc(false, false, false, Segment(0, 0, 0)));
      txDesc, dma, busy := 0, 0, 0;
      refs, outside := multiset{}, multiset{};
      taken, accepted := [], [];
    }

    /** The DMA engine finishes the next descriptor it owns. The pbuf it has read from has not
        been released. */
    method DmaTake()
      requires Valid() && busy > 0
      modifies descs, this`dma, this`busy, this`taken
      ensures Valid()
      ensures taken == old(taken) + [old(UnderWay()[0])] && UnderWay() == old(UnderWay())[1..]
      ensures busy == old(busy) - 1 && old(UnderWay()[0]).seg.pbuf in refs
    {
      ghost var under := UnderWay();
      assert Distance(dma, dma, descs.Length) == 0;
      assert under[0].seg.pbuf in queue.Contents();
      TakeDesc();
      assert taken + UnderWay() == old(taken) + under;
    }

    method TakeDesc()
      requires RingValid() && busy > 0
      modifies descs, this`dma, this`busy, this`taken
      ensures RingValid() && UnderWay() == old(UnderWay())[1..] && taken == old(taken) + [old(UnderWay()[0])]
    {
      hide OwnedRun, Window, Slot, AllMarked;
      ghost var was, under := descs[..], UnderWay();
      RunShrinks(was, dma, busy);
      taken := taken + [under[0]];
      descs[dma] := descs[dma].(own := false);
      assert descs[..] == was[dma := was[dma].(own := false)];
      dma := Slot(dma, 1, descs.Length);
      busy := busy - 1;
      assert old(taken) + under == taken + under[1..];
    }

    /** The first loop of low_level_output: is every descriptor idle? */
    method AllIdle() returns (idle: bool)
      requires RingValid()
      ensures idle <==> busy == 0
    {
      var i: nat, at: nat := 0, txDesc;
      while i < descs.Length && !descs[at].own
        invariant i <= descs.Length && at == Slot(txDesc, if i < descs.Length then i else 0, descs.Length)
        invariant i + busy <= descs.Length
      {
        OwnedAfterFree(descs[..], dma, busy, i);
        at := Slot(at, 1, descs.Length);
        i := i + 1;
      }
      if i < descs.Length {
        OwnedAfterFree(descs[..], dma, busy, i);
      }
      idle := i == descs.Length;
    }

    /** The second loop: with every descriptor idle, every queued reference is dropped. */
    method FreeSent(idle: bool)
      requires Valid() && (idle <==> busy == 0)
      modifies queue, this`refs
      ensures Valid()
      ensures idle ==> queue.Contents() == [] && refs == outside && queue.getCnt == queue.putCnt
      ensures !idle ==>
              queue.Contents() == old(queue.Contents()) && refs == old(refs) && queue.getCnt == old(queue.getCnt)
      ensures queue.putCnt == old(queue.putCnt)
    {
      hide OwnedRun, Slot, AllMarked, Around, NoneEmpty, Window, TxDriver.RingValid;
      if idle {
        NothingUnderWay();
        DropAll();
      }
    }

    lemma NothingUnderWay()
      requires RingValid() && busy == 0
      ensures UnderWay() == [] && Kept(UnderWay(), [])
    {
    }

    /** The loop drops the reference of every queued chain. */
    method DropAll()
      requires queue.Valid() && refs == outside + multiset(queue.Contents())
      modifies queue, this`refs
      ensures queue.Valid() && queue.Contents() == [] && queue.getCnt == queue.putCnt == old(queue.putCnt)
      ensures refs == outside
    {
      hide Around;
      while !queue.IsEmpty()
        invariant queue.Valid() && queue.putCnt == old(queue.putCnt)
        invariant refs == outside + multiset(queue.Contents())
        decreases |queue.Contents()|
      {
        assert queue.Contents() == [queue.Contents()[0]] + queue.Contents()[1..];
        DropOldest();
      }
    }

    /** The oldest queued reference is dropped. */
    method DropOldest()
      requires queue.Valid() && queue.Contents() != []
      modifies queue, this`refs
      ensures queue.Valid() && queue.Contents() == old(queue.Contents())[1..] && queue.putCnt == old(queue.putCnt)
      ensures refs == old(refs) - multiset{old(queue.Contents()[0])}
    {
      hide Around;
      var q := queue.Get();
      refs := refs - multiset{q.value}; // pbuf_free
    }

    /** Segments 0 to `count` of chain `c` stand in the free descriptors from txDesc on. */
    ghost predicate Staged(c: Chain, count: nat)
      reads this, descs
      requires RingShape()
    {
      && busy + count <= descs.Length && count <= |c.lens|
      && forall k :: 0 <= k < count ==> descs[Slot(txDesc, k, descs.Length)].seg == Segment(c.pbuf, k, c.lens[k])
    }

    /** HAL_ETH_TransmitFrame2: gives `count` staged descriptors to the engine, marked as one
        chain. */
    method TransmitFrame(ghost c: Chain, count: nat) returns (ok: bool)
      requires RingValid() && count == |c.lens| && (busy == descs.Length || Staged(c, count))
      modifies descs, this`txDesc, this`busy, this`accepted
      ensures RingValid() && (ok <==> count > 0 && old(busy) < descs.Length)
      ensures ok ==> accepted == old(accepted) + [Frame(c)] && UnderWay() == old(UnderWay()) + Marked(Frame(c))
      ensures !ok ==> accepted == old(accepted) && UnderWay() == old(UnderWay()) && descs[..] == old(descs[..])
      ensures busy == old(busy) + if ok then count else 0
    {
      hide OwnedRun, Window, Slot, AllMarked, Marked, Frame;
      if count == 0 {
        return false;
      }
      OwnedAfterFree(descs[..], dma, busy, 0);
      NextSlots(txDesc, 0, descs.Length);
      if descs[txDesc].own {
        return false;
      }
      ghost var under, marked := UnderWay(), Marked(Frame(c));
      GiveAll(c, count);
      accepted := accepted + [Frame(c)];
      AllMarkedAppend(old(accepted), Frame(c));
      assert taken + (under + marked) == (taken + under) + marked;
      return true;
    }

    /** The staged descriptors go to the engine one by one. */
    method GiveAll(ghost c: Chain, count: nat)
      requires RingShape() && 0 < count == |c.lens| && Staged(c, count)
      modifies descs, this`txDesc, this`busy
      ensures RingShape() && UnderWay() == old(UnderWay()) + Marked(Frame(c)) && busy == old(busy) + count
    {
      hide OwnedRun, Window, Slot, AllMarked, Marked, TxDriver.UnderWay;
      ghost var tx, under, frame := txDesc, UnderWay(), Frame(c);
      NextSlots(txDesc, 0, descs.Length);
      assert under + Marked(frame)[..0] == under;
      var i := 0;
      while i < count
        invariant i <= count && busy == old(busy) + i && RingShape() && txDesc == Slot(tx, i, descs.Length)
        invariant UnderWay() == under + Marked(frame)[..i]
        invariant forall k :: 0 <= k < count ==>
                    descs[Slot(tx, k, descs.Length)].seg == Segment(c.pbuf, k, c.lens[k])
      {
        MarkedAt(frame, i);
        GiveDesc(i == 0, i == count - 1);
        NextSlots(tx, i, descs.Length);
        i := i + 1;
      }
      assert Marked(frame)[..count] == Marked(frame);
    }

    /** The next free descriptor goes to the engine with its bits set. */
    method GiveDesc(first: bool, last: bool)
      requires RingShape() && busy < descs.Length
      modifies descs, this`txDesc, this`busy
      ensures RingShape() && busy == old(busy) + 1 && txDesc == Slot(old(txDesc), 1, descs.Length)
      ensures UnderWay() == old(UnderWay()) + [Entry(first, last, old(descs[txDesc].seg))]
      ensures forall i :: 0 <= i < descs.Length ==> descs[i].seg == old(descs[i].seg)
    {
      hide OwnedRun, Window, Slot;
      ghost var was := descs[..];
      var d := TxDesc(true, first, last, descs[txDesc].seg);
      RunGrows(was, dma, busy, d);
      descs[txDesc] := d;
      assert descs[..] == was[txDesc := d];
      txDesc := Slot(txDesc, 1, descs.Length);
      busy := busy + 1;
    }

    /** The chain as a whole can be sent once FreeSent has run. */
    ghost predicate Sendable(c: Chain)
      reads this`busy
    {
      |c.lens| + busy <= descs.Length && forall k :: 0 <= k < |c.lens| ==> c.lens[k] <= ETH_TX_BUF_SIZE
    }

    /** The queue is full, and its put counter has wrapped: the next put is not refused. */
    ghost predicate Brims()
      reads this, queue, queue.items
      requires queue.Valid()
    {
      |queue.Contents()| == queue.capacity && queue.Wrapped()
    }

    /** The chain goes into tx_free_queue, with a reference. */
    method KeepChain(pbuf: nat) returns (ok: bool)
      requires queue.Valid() && |queue.Contents()| <= queue.capacity
      modifies queue, queue.items, this`refs
      ensures queue.Valid() && (ok <==> |old(queue.Contents())| < queue.capacity || old(Brims()))
      ensures !ok ==> queue.Contents() == old(queue.Contents()) && refs == old(refs)
      ensures queue.getCnt == old(queue.getCnt)
      ensures queue.putCnt == if ok then Add32(old(queue.putCnt), 1) else old(queue.putCnt)
      ensures ok ==> refs == old(refs) + multiset{pbuf}
      ensures ok ==> queue.Contents() == Queued(old(queue.Contents()), queue.capacity, pbuf)
    {
      hide Around;
      ok := queue.Put(pbuf);
      if ok {
        refs := refs + multiset{pbuf}; // pbuf_ref
      }
    }

    /** One segment goes into the i-th free descriptor. */
    method SetDesc(c: Chain, i: nat, at: nat)
      requires RingShape() && i < |c.lens| && busy + i < descs.Length && at == Slot(txDesc, i, descs.Length)
      requires Staged(c, i) && c.lens[i] <= ETH_TX_BUF_SIZE
      modifies descs
      ensures RingShape() && UnderWay() == old(UnderWay()) && Staged(c, i + 1)
    {
      hide OwnedRun, Window, Slot;
      ghost var was := descs[..];
      var len := c.lens[i] % 0x2000; // q->len & ETH_DMATXDESC_TBS1
      var d := TxDesc(false, descs[at].first, descs[at].last, Segment(c.pbuf, i, len));
      RunKept(was, dma, busy, i, d);
      NextSlots(txDesc, i, descs.Length);
      descs[at] := d;
      assert descs[..] == was[at := d];
    }

    /** The first segment fits, so the chain is offered to the free queue. */
    ghost predicate ReachesPut(c: Chain)
      reads this`busy
    {
      c.lens != [] && busy < descs.Length && c.lens[0] <= ETH_TX_BUF_SIZE
    }

    /** A descriptor that the chain needs belongs to the engine, and no length stops it before. */
    ghost predicate Blocks(c: Chain)
      reads this`busy
    {
      && busy <= descs.Length && |c.lens| + busy > descs.Length
      && forall k :: 0 <= k < descs.Length - busy ==> c.lens[k] <= ETH_TX_BUF_SIZE
    }

    /** The free queue takes the chain. */
    ghost predicate Puts(c: Chain)
      reads this, queue, queue.items
      requires queue.Valid()
    {
      ReachesPut(c) && (|queue.Contents()| < queue.capacity || Brims())
    }

    /** The third loop of low_level_output: the chain is put into tx_free_queue with its first
        segment, and its segments into free descriptors. Leaves early with the reference kept
        when a later segment does not fit. */
    method Stage(c: Chain) returns (err: Err)
      requires Valid() && |c.lens| <= descs.Length
      modifies descs, queue, queue.items, this`refs
      ensures RingValid() && queue.Valid() && UnderWay() == old(UnderWay())
      ensures err == ErrOk ==> Staged(c, |c.lens|)
      ensures err == ErrOk <==>
              Sendable(c) && (c.lens == [] || |old(queue.Contents())| < queue.capacity || old(Brims()))
      ensures err == ErrUse <==>
              Blocks(c) && (busy == descs.Length || |old(queue.Contents())| < queue.capacity || old(Brims()))
      ensures queue.getCnt == old(queue.getCnt)
      ensures var put := old(Puts(c));
        && queue.putCnt == (if put then Add32(old(queue.putCnt), 1) else old(queue.putCnt))
        && queue.Contents() ==
           (if put then Queued(old(queue.Contents()), queue.capacity, c.pbuf) else old(queue.Contents()))
        && refs == old(refs) + (if put then multiset{c.pbuf} else multiset{})
    {
      hide OwnedRun, Window, Slot, AllMarked, Around;
      var i: nat, at: nat := 0, txDesc;
      NextSlots(txDesc, 0, descs.Length);
      while i < |c.lens|
        invariant i <= |c.lens| && RingValid() && queue.Valid() && UnderWay() == old(UnderWay()) && Staged(c, i)
        invariant at == Slot(txDesc, if i < descs.Length then i else 0, descs.Length)
        invariant forall k :: 0 <= k < i ==> c.lens[k] <= ETH_TX_BUF_SIZE
        invariant i == 0 ==> queue.Contents() == old(queue.Contents()) && refs == old(refs) && Brims() == old(Brims())
        invariant i > 0 ==> queue.Contents() == Queued(old(queue.Contents()), queue.capacity, c.pbuf)
        invariant i > 0 ==> refs == old(refs) + multiset{c.pbuf} && queue.putCnt == Add32(old(queue.putCnt), 1)
        invariant queue.getCnt == old(queue.getCnt) && (i == 0 ==> queue.putCnt == old(queue.putCnt))
        invariant i > 0 ==> |old(queue.Contents())| < queue.capacity || old(Brims())
      {
        OwnedAfterFree(descs[..], dma, busy, i);
        if descs[at].own {
          return ErrUse;
        }
        if c.lens[i] > ETH_TX_BUF_SIZE {
          return ErrNoBufs;
        }
        if i == 0 {
          var ok := KeepChain(c.pbuf);
          if !ok {
            return ErrNoBufs;
          }
        }
        SetDesc(c, i, at);
        NextSlots(txDesc, i, descs.Length);
        at := Slot(at, 1, descs.Length);
        i := i + 1;
      }
      return ErrOk;
    }

    /** low_level_output; None for the NULL chain of the underflow poll. A chain is accepted,
        whole and in order, exactly when it fits; otherwise nothing of it is ever sent. Every
        queued chain has its one reference and every descriptor under way points into a queued
        chain, until a put meets a full queue whose counters have wrapped. */
    method Output(c: Option<Chain>) returns (err: Err)
      requires Valid()
      modifies descs, queue, queue.items, this`refs, this`txDesc, this`busy, this`accepted
      ensures RingValid() && queue.Valid()
      ensures Valid() <==> !old(Overflows(c))
      ensures (err == ErrOk <==> old(Accepts(c))) && (err == ErrUse <==> old(InUse(c)))
      ensures var sent, frame := err == ErrOk && ChainOf(c).lens != [], Frame(ChainOf(c));
        && accepted == old(accepted) + (if sent then [frame] else [])
        && UnderWay() == old(UnderWay()) + (if sent then Marked(frame) else [])
        && busy == old(busy) + (if sent then |frame| else 0)
      ensures var keeps, pbuf := old(Takes(c)), ChainOf(c).pbuf;
        && queue.putCnt == (if keeps then Add32(old(queue.putCnt), 1) else old(queue.putCnt))
        && queue.Contents() == (if keeps then Queued(old(Unsent()), queue.capacity, pbuf) else old(Unsent()))
        && refs == outside + multiset(old(Unsent())) + (if keeps then multiset{pbuf} else multiset{})
      ensures queue.getCnt == if old(busy) == 0 then old(queue.putCnt) else old(queue.getCnt)
    {
      hide OwnedRun, Window, Slot, AllMarked, Around, NoneEmpty, Kept, Marked, Frame, Queued, Occupancy, Add32;
      assert |ChainOf(c).lens| > descs.Length ==> !Sendable(ChainOf(c));
      hide TxDriver.UnderWay, TxDriver.ReachesPut, TxDriver.Blocks;
      var idle := AllIdle();
      FreeSent(idle);
      var chain := ChainOf(c);
      if |chain.lens| > descs.Length {
        return ErrNoBufs;
      }
      err := StageAndSend(chain);
    }

    /** low_level_output once the length of the chain has been checked. */
    method StageAndSend(c: Chain) returns (err: Err)
      requires Valid() && |c.lens| <= descs.Length
      modifies descs, queue, queue.items, this`refs, this`txDesc, this`busy, this`accepted
      ensures RingValid() && queue.Valid()
      ensures Valid() <==> !old(Brims() && ReachesPut(c))
      ensures err == ErrOk <==>
              old(Sendable(c) && (c.lens == [] || |queue.Contents()| < queue.capacity || Brims()))
      ensures err == ErrUse <==>
              old(Blocks(c) && (busy == descs.Length || |queue.Contents()| < queue.capacity || Brims()))
      ensures var sent := err == ErrOk && c.lens != [];
              && accepted == old(accepted) + (if sent then [Frame(c)] else [])
              && UnderWay() == old(UnderWay()) + (if sent then Marked(Frame(c)) else [])
              && busy == old(busy) + (if sent then |c.lens| else 0)
      ensures queue.getCnt == old(queue.getCnt)
      ensures var keeps := old(Puts(c));
        && queue.putCnt == (if keeps then Add32(old(queue.putCnt), 1) else old(queue.putCnt))
        && queue.Contents() ==
           (if keeps then Queued(old(queue.Contents()), queue.capacity, c.pbuf) else old(queue.Contents()))
        && refs == old(refs) + (if keeps then multiset{c.pbuf} else multiset{})
    {
      hide OwnedRun, Window, Slot, AllMarked, Around, NoneEmpty, Kept, Marked, Frame, Queued, Occupancy, Add32;
      hide TxDriver.Staged, TxDriver.UnderWay, TxDriver.RingShape;
      ghost var kept, under := queue.Contents(), UnderWay();
      FitsBehind(kept, queue.capacity, c.pbuf);
      err := Stage(c);
      if err == ErrOk {
        var _ := TransmitFrame(c, |c.lens|);
      }
      if |kept| < descs.Length {
        KeptWithMore(under, kept, c);
      }
    }

    /** A put would reach the full queue in its wrapped window. */
    ghost predicate Overflows(c: Option<Chain>)
      reads this, queue, queue.items
      requires queue.Valid()
    {
      Brims() && busy > 0 && |ChainOf(c).lens| <= descs.Length && ReachesPut(ChainOf(c))
    }

    /** What stays in the free queue: nothing once every descriptor is idle. */
    ghost function Unsent(): (r: seq<nat>)
      reads this, queue, queue.items
      requires queue.Valid()
    {
      if busy == 0 then [] else queue.Contents()
    }

    /** The free queue takes the chain once what has been sent has left it. */
    ghost predicate Takes(c: Option<Chain>)
      reads this, queue, queue.items
      requires queue.Valid()
    {
      && |ChainOf(c).lens| <= descs.Length && ReachesPut(ChainOf(c))
      && (busy == 0 || |queue.Contents()| < queue.capacity || queue.Wrapped())
    }

    /** The chain fits into the free descriptors and its pbuf into the free queue. */
    ghost predicate Accepts(c: Option<Chain>)
      reads this, queue, queue.items
      requires queue.Valid()
    {
      ChainOf(c).lens == [] ||
      (Sendable(ChainOf(c)) && (busy == 0 || |queue.Contents()| < queue.capacity || queue.Wrapped()))
    }

    /** The chain is not too long for the ring, but a descriptor that it needs is in use. */
    ghost predicate InUse(c: Option<Chain>)
      reads this, queue, queue.items
      requires queue.Valid()
    {
      && |ChainOf(c).lens| <= descs.Length && Blocks(ChainOf(c))
      && (busy == descs.Length || |queue.Contents()| < queue.capacity || queue.Wrapped())
    }

    /** What the conditions on an output call say, in numbers. */
    lemma Conditions(c: Option<Chain>)
      requires Valid()
      ensures c == None ==> Accepts(c) && !InUse(c) && !Takes(c) && !Overflows(c)
      ensures c.Some? ==>
        var lens, full, wrapped := c.value.lens, |queue.Contents()| == descs.Length, queue.putCnt < queue.getCnt;
        && (Accepts(c) <==> lens == [] || (|lens| + busy <= descs.Length && (busy == 0 || !full || wrapped)
                                           && forall k :: 0 <= k < |lens| ==> lens[k] <= 1524))
        && (InUse(c) <==> |lens| <= descs.Length < |lens| + busy && (busy == descs.Length || !full || wrapped)
                          && forall k :: 0 <= k < descs.Length - busy ==> lens[k] <= 1524)
        && (Takes(c) <==> 0 < |lens| <= descs.Length && busy < descs.Length && lens[0] <= 1524
                          && (busy == 0 || !full || wrapped))
        && (Overflows(c) <==> Takes(c) && busy > 0 && full && wrapped)
      ensures Unsent() == if busy == 0 then [] else queue.Contents()
    {
      hide Around, Kept, TxDriver.UnderWay, OwnedRun, AllMarked, Window, Slot;
    }

    /** The stack takes a reference of its own. */
    method StackKeeps(pbuf: nat)
      requires Valid()
      modifies this`refs, this`outside
      ensures Valid() && refs == old(refs) + multiset{pbuf} && outside == old(outside) + multiset{pbuf}
    {
      hide OwnedRun, Slot, AllMarked, Around, NoneEmpty, Window, Kept;
      refs, outside := refs + multiset{pbuf}, outside + multiset{pbuf};
    }

    /** The stack drops one of its own references. */
    method StackFrees(pbuf: nat)
      requires Valid() && pbuf in outside
      modifies this`refs, this`outside
      ensures Valid() && refs == old(refs) - multiset{pbuf} && outside == old(outside) - multiset{pbuf}
    {
      hide OwnedRun, Slot, AllMarked, Around, NoneEmpty, Window, Kept;
      refs, outside := refs - multiset{pbuf}, outside - multiset{pbuf};
    }

    /** No pbuf that the engine is still to read has been released. */
    lemma UnderWayAlive()
      requires Valid()
      ensures forall k :: 0 <= k < |UnderWay()| ==> UnderWay()[k].seg.pbuf in refs
    {
      forall k | 0 <= k < |UnderWay()| ensures UnderWay()[k].seg.pbuf in refs {
        assert UnderWay()[k].seg.pbuf in multiset(queue.Contents());
      }
    }

    /** Told apart by their bits, the descriptors taken so far are the accepted chains, in
        order, up to one that is not complete yet; with nothing under way they are all of them. */
    lemma FramesArrive()
      requires RingValid()
      ensures Regroup(taken) <= accepted
      ensures busy == 0 ==> Regroup(taken) == accepted && Open(taken) == []
    {
      var all := AllMarked(accepted);
      assert taken == all[..|taken|];
      RegroupPart(accepted, |taken|);
      RegroupMarked(accepted);
      if busy == 0 {
        assert UnderWay() == [];
        assert taken + [] == taken;
      }
    }
  }

  /** One thing that can happen; the stack frees only references that it holds. */
  datatype Step = Output(c: Option<Chain>) | DmaTakes | StackKeeps(pbuf: nat) | StackFrees(pbuf: nat)

  /** What decides about an output call: descriptors under way, and pbufs in the free queue. */
  datatype Load = Load(busy: nat, queued: nat)

  predicate Fits(n: nat, load: Load, c: Chain) {
    |c.lens| + load.busy <= n && forall k :: 0 <= k < |c.lens| ==> c.lens[k] <= ETH_TX_BUF_SIZE
  }

  /** A step on a ring of `n` descriptors, and whether it answers with success. */
  function Next(n: nat, load: Load, step: Step): (r: (Load, bool)) {
    match step
    case DmaTakes => (if load.busy > 0 then load.(busy := load.busy - 1) else load, load.busy > 0)
    case StackKeeps(_) => (load, true)
    case StackFrees(_) => (load, true)
    case Output(None) => (if load.busy == 0 then Load(0, 0) else load, true)
    case Output(Some(c)) =>
      var queued := if load.busy == 0 then 0 else load.queued;
      if c.lens == [] then (Load(load.busy, queued), true)
      else if |c.lens| > n || load.busy >= n || c.lens[0] > ETH_TX_BUF_SIZE || queued >= n then
        (Load(load.busy, queued), false)
      else if Fits(n, load, c) then (Load(load.busy + |c.lens|, queued + 1), true)
      else (Load(load.busy, queued + 1), false)
  }

  function Replies(n: nat, load: Load, steps: seq<Step>): (r: (Load, seq<bool>))
    ensures |r.1| == |steps|
    decreases |steps|
  {
    if steps == [] then (load, []) else
      var before := Replies(n, load, steps[..|steps| - 1]);
      var now := Next(n, before.0, steps[|steps| - 1]);
      (now.0, before.1 + [now.1])
  }

  /** The chains whose output call succeeded. */
  function SentFrames(steps: seq<Step>, replies: seq<bool>): (r: seq<seq<Segment>>)
    requires |replies| == |steps|
    decreases |steps|
  {
    if steps == [] then [] else
      var k := |steps| - 1;
      SentFrames(steps[..k], replies[..k]) + FrameOf(steps[k], replies[k])
  }

  function FrameOf(step: Step, ok: bool): (r: seq<seq<Segment>>) {
    if ok && step.Output? && step.c.Some? && step.c.value.lens != [] then [Frame(step.c.value)] else []
  }

  lemma RepliesMore(n: nat, load: Load, steps: seq<Step>, k: nat)
    requires k < |steps|
    ensures var before := Replies(n, load, steps[..k]);
      var now := Next(n, before.0, steps[k]);
      && Replies(n, load, steps[..k + 1]) == (now.0, before.1 + [now.1])
      && SentFrames(steps[..k + 1], before.1 + [now.1]) == SentFrames(steps[..k], before.1) + FrameOf(steps[k], now.1)
  {
    assert steps[..k + 1][..k] == steps[..k];
    var before := Replies(n, load, steps[..k]);
    var now := Next(n, before.0, steps[k]);
    assert (before.1 + [now.1])[..k] == before.1;
  }

  ghost function LoadOf(t: TxDriver): (r: Load)
    reads t, t.queue
    requires t.queue.Valid()
  {
    Load(t.busy, t.queue.Count())
  }

  /** An output call on the driver does what it does on the counts. */
  method OutputStep(t: TxDriver, c: Option<Chain>) returns (ok: bool)
    requires t.Valid() && !t.queue.Wrapped() && t.queue.putCnt < 0xFFFF_FFFF
    modifies t.descs, t.queue, t.queue.items, t`refs, t`txDesc, t`busy, t`accepted
    ensures t.Valid() && !t.queue.Wrapped() && t.queue.putCnt <= old(t.queue.putCnt) + 1
    ensures (LoadOf(t), ok) == Next(t.descs.Length, old(LoadOf(t)), Output(c))
    ensures t.accepted == old(t.accepted) + FrameOf(Output(c), ok)
  {
    hide Around, Kept, Frame, Next, Queued, Marked, Occupancy;
    hide TxDriver.RingValid, TxDriver.RingShape, TxDriver.UnderWay;
    hide TxDriver.Accepts, TxDriver.Takes, TxDriver.Unsent, TxDriver.Overflows;
    OutputExpected(t, c);
    ghost var next := Next(t.descs.Length, LoadOf(t), Output(c));
    var err := t.Output(c);
    ok := err == ErrOk;
    assert t.busy == next.0.busy;
    assert |t.queue.Contents()| == next.0.queued;
  }

  /** What an output call needs and leaves, in counts. */
  lemma OutputExpected(t: TxDriver, c: Option<Chain>)
    requires t.Valid() && !t.queue.Wrapped()
    ensures var r := Next(t.descs.Length, LoadOf(t), Output(c));
      && r.1 == t.Accepts(c) && !t.Overflows(c)
      && r.0.busy == t.busy + (if r.1 && c.Some? then |c.value.lens| else 0)
      && r.0.queued == |t.Unsent()| + if t.Takes(c) then 1 else 0
  {
    hide Around, TxDriver.RingValid, TxDriver.UnderWay, Kept;
  }

  /** One step on the driver. */
  method TakeStep(t: TxDriver, step: Step) returns (ok: bool)
    requires t.Valid() && !t.queue.Wrapped() && t.queue.putCnt < 0xFFFF_FFFF
    modifies t, t.descs, t.queue, t.queue.items
    ensures t.Valid() && !t.queue.Wrapped() && t.queue.putCnt <= old(t.queue.putCnt) + 1
    ensures (LoadOf(t), ok) == Next(t.descs.Length, old(LoadOf(t)), step)
    ensures t.accepted == old(t.accepted) + FrameOf(step, ok)
  {
    hide Around, TxDriver.RingValid, TxDriver.RingShape, TxDriver.UnderWay, Kept;
    match step {
      case Output(c) =>
        ok := OutputStep(t, c);
      case DmaTakes =>
        ok := t.busy > 0;
        if ok {
          t.DmaTake();
        }
      case StackKeeps(pbuf) =>
        t.StackKeeps(pbuf);
        ok := true;
      case StackFrees(pbuf) =>
        ok := true;
        if pbuf in t.outside {
          t.StackFrees(pbuf);
        }
    }
  }

  /** Any run of output calls, DMA progress and frees by the stack, short enough that the put
      counter does not wrap: every call answers as the counts of descriptors and queued pbufs
      say, the accepted chains are those whose call succeeded, what the engine has taken is made
      of them only, and no pbuf under way has been released. */
  method Run(t: TxDriver, steps: seq<Step>) returns (replies: seq<bool>)
    requires t.Valid() && !t.queue.Wrapped() && t.queue.putCnt + |steps| < TWO_32
    modifies t, t.descs, t.queue, t.queue.items
    ensures t.Valid() && Regroup(t.taken) <= t.accepted
    ensures (LoadOf(t), replies) == Replies(t.descs.Length, old(LoadOf(t)), steps)
    ensures t.accepted == old(t.accepted) + SentFrames(steps, replies)
    ensures forall k :: 0 <= k < |t.UnderWay()| ==> t.UnderWay()[k].seg.pbuf in t.refs
  {
    hide Around, TxDriver.RingValid, TxDriver.RingShape, TxDriver.UnderWay, Kept, Next, FrameOf, Replies, SentFrames;
    replies := [];
    ghost var start := LoadOf(t);
    NoSteps(t.descs.Length, start);
    assert steps[..0] == [];
    for n := 0 to |steps|
      invariant t.Valid() && !t.queue.Wrapped() && t.queue.putCnt + |steps| - n < TWO_32 && |replies| == n
      invariant (LoadOf(t), replies) == Replies(t.descs.Length, start, steps[..n])
      invariant t.accepted == old(t.accepted) + SentFrames(steps[..n], replies)
    {
      RepliesMore(t.descs.Length, start, steps, n);
      var ok := TakeStep(t, steps[n]);
      replies := replies + [ok];
    }
    assert steps[..|steps|] == steps;
    t.UnderWayAlive();
    t.FramesArrive();
  }

  lemma NoSteps(n: nat, load: Load)
    ensures Replies(n, load, []) == (load, []) && SentFrames([], []) == []
  {
  }

  /** A chain of one short segment. */
  const SHORT: Chain := Chain(0, [60])

  /** One output call on a ring of two descriptors, one of them free. */
  method SendShort(t: TxDriver)
    requires t.Valid() && t.descs.Length == 2 && t.busy < 2 && (t.busy == 1 ==> |t.queue.Contents()| == 1)
    modifies t.descs, t.queue, t.queue.items, t`refs, t`txDesc, t`busy, t`accepted
    ensures t.Valid() && t.busy == old(t.busy) + 1 == |t.queue.Contents()|
    ensures t.queue.putCnt == Add32(old(t.queue.putCnt), 1)
    ensures t.queue.getCnt == if old(t.busy) == 0 then old(t.queue.putCnt) else old(t.queue.getCnt)
  {
    hide Around, Kept, Frame, Marked, Queued, Occupancy, Add32;
    hide TxDriver.RingValid, TxDriver.RingShape, TxDriver.UnderWay;
    var _ := t.Output(Some(SHORT));
  }

  /** The wrapped window is reached: outputs, each taken by the engine at once, until the put
      counter is at its end, then two more and one of them taken. The queue is full, its counters
      have wrapped, a descriptor is under way, and the next output call is one too many. */
  method ReachOverflow() returns (t: TxDriver)
    ensures fresh(t) && t.Valid() && t.Overflows(Some(SHORT))
  {
    hide Around, Kept, Frame, Marked, Queued, TxDriver.RingValid, TxDriver.RingShape, TxDriver.UnderWay;
    t := new TxDriver(2);
    for i := 0 to 0xFFFF_FFFF
      invariant fresh(t) && fresh(t.descs) && fresh(t.queue) && fresh(t.queue.items) && t.Valid()
      invariant t.descs.Length == 2 && t.busy == 0 && t.queue.putCnt == i
    {
      SendShort(t);
      t.DmaTake();
    }
    SendShort(t);
    SendShort(t);
    t.DmaTake();
  }
}
