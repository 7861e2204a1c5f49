/**
 * How a chain of pbufs travels as descriptors: the first- and last-segment bits, and how the
 * receiver of the descriptors puts the chains together again.
 */
module TxFraming {
  import opened Prelude

  /** Segment `index` of the chain that starts at pbuf `pbuf`, with its length. */
  datatype Segment = Segment(pbuf: nat, index: nat, len: nat)

  /** What the DMA engine reads from a descriptor. */
  datatype Entry = Entry(first: bool, last: bool, seg: Segment)

  /** A chain as entries: the first bit on its first segment, the last bit on its last. */
  function Marked(frame: seq<Segment>): (r: seq<Entry>)
    ensures |r| == |frame|
  {
    seq(|frame|, k requires 0 <= k < |frame| => Entry(k == 0, k == |frame| - 1, frame[k]))
  }

  lemma MarkedAt(frame: seq<Segment>, k: nat)
    requires k < |frame|
    ensures Marked(frame)[k] == Entry(k == 0, k == |frame| - 1, frame[k])
    ensures Marked(frame)[..k + 1] == Marked(frame)[..k] + [Marked(frame)[k]]
  {
  }

  function AllMarked(frames: seq<seq<Segment>>): (r: seq<Entry>) {
    if frames == [] then [] else AllMarked(frames[..|frames| - 1]) + Marked(frames[|frames| - 1])
  }

  /** The segments collected since the last complete chain, after reading `entries`. */
  function Open(entries: seq<Entry>): (r: seq<Segment>)
    decreases |entries|
  {
    if entries == [] then [] else
      var e := entries[|entries| - 1];
      if e.last then [] else (if e.first then [] else Open(entries[..|entries| - 1])) + [e.seg]
  }

  /** The chains completed by reading `entries`, told apart by the bits alone. */
  function Regroup(entries: seq<Entry>): (r: seq<seq<Segment>>)
    decreases |entries|
  {
    if entries == [] then [] else
      var e, before := entries[|entries| - 1], entries[..|entries| - 1];
      if e.last then Regroup(before) + [(if e.first then [] else Open(before)) + [e.seg]] else Regroup(before)
  }

  /** Reading the first n entries of one more chain: nothing complete before its last. */
  lemma {:induction false} RegroupFrame(before: seq<Entry>, frame: seq<Segment>, n: nat)
    requires 0 < n <= |frame|
    ensures Regroup(before + Marked(frame)[..n]) == Regroup(before) + if n == |frame| then [frame] else []
    ensures Open(before + Marked(frame)[..n]) == if n == |frame| then [] else frame[..n]
  {
    var all := before + Marked(frame)[..n];
    assert all[..|all| - 1] == before + Marked(frame)[..n - 1];
    assert all[|all| - 1] == Entry(n == 1, n == |frame|, frame[n - 1]);
    assert frame[..n] == frame[..n - 1] + [frame[n - 1]];
    if n > 1 {
      RegroupFrame(before, frame, n - 1);
    } else {
      assert before + Marked(frame)[..0] == before;
    }
    if n == |frame| {
      assert frame[..n] == frame;
    }
  }

  ghost predicate NoneEmpty(frames: seq<seq<Segment>>) {
    forall k :: 0 <= k < |frames| ==> frames[k] != []
  }

  /** The bits carry the chains: reading everything that was marked gives the chains back, in
      order, and reading any part of it gives only chains that were sent. */
  lemma {:induction false} RegroupMarked(frames: seq<seq<Segment>>)
    requires NoneEmpty(frames)
    ensures Regroup(AllMarked(frames)) == frames && Open(AllMarked(frames)) == []
  {
    if frames != [] {
      var rest, last := frames[..|frames| - 1], frames[|frames| - 1];
      assert NoneEmpty(rest) && last != [];
      hide Regroup, Open, Marked, NoneEmpty;
      RegroupMarked(rest);
      RegroupOneMore(rest, last);
      assert rest + [last] == frames;
    }
  }

  lemma RegroupOneMore(frames: seq<seq<Segment>>, last: seq<Segment>)
    requires Regroup(AllMarked(frames)) == frames && last != []
    ensures Regroup(AllMarked(frames + [last])) == frames + [last] && Open(AllMarked(frames + [last])) == []
  {
    hide Regroup, Open, Marked, AllMarked;
    AllMarkedAppend(frames, last);
    RegroupWhole(AllMarked(frames), last);
  }

  lemma RegroupWhole(before: seq<Entry>, frame: seq<Segment>)
    requires frame != []
    ensures Regroup(before + Marked(frame)) == Regroup(before) + [frame] && Open(before + Marked(frame)) == []
  {
    hide Regroup, Open;
    RegroupFrame(before, frame, |frame|);
    assert Marked(frame)[..|frame|] == Marked(frame);
  }

  lemma {:induction false} RegroupPart(frames: seq<seq<Segment>>, n: nat)
    requires NoneEmpty(frames) && n <= |AllMarked(frames)|
    ensures Regroup(AllMarked(frames)[..n]) <= frames
  {
    if frames != [] {
      var rest, last := frames[..|frames| - 1], frames[|frames| - 1];
      var before, marked := AllMarked(rest), Marked(last);
      assert AllMarked(frames) == before + marked;
      hide AllMarked, Marked, Regroup;
      if n <= |before| {
        RegroupPart(rest, n);
        assert (before + marked)[..n] == before[..n];
      } else {
        RegroupMarked(rest);
        RegroupFrame(before, last, n - |before|);
        assert (before + marked)[..n] == before + marked[..n - |before|];
      }
    } else {
      NothingMarked();
    }
  }

  lemma NothingMarked()
    ensures AllMarked([]) == [] && Regroup([]) == []
  {
  }

  lemma AllMarkedAppend(frames: seq<seq<Segment>>, frame: seq<Segment>)
    ensures AllMarked(frames + [frame]) == AllMarked(frames) + Marked(frame)
  {
    assert (frames + [frame])[..|frames|] == frames;
  }
}
