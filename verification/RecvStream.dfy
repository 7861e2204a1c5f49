/**
 * The receive side of a TCP connection in src/utility/stm32_eth.cpp: a current pbuf, an
 * offset into it, a queue of further pbufs and a count of readable bytes. A pbuf is its
 * payload; pbuf_get_at and pbuf_copy_partial read it.
 */
module RecvStream {
  import opened Prelude
  import opened RingQueue

  type Pbuf = p: seq<byte> | |p| <= 0xFFFF witness []

  /** The rest of `s` after `n` bytes, nothing when it is shorter. */
  function Past(s: seq<byte>, n: nat): (r: seq<byte>) {
    if n <= |s| then s[n..] else []
  }

  /** pbuf_copy_partial from `offset` on. */
  function CopyPartial(p: Pbuf, len: nat, offset: nat): (r: seq<byte>)
    ensures |r| == Min(len, |Past(p, offset)|)
  {
    if offset < |p| then p[offset..offset + Min(len, |p| - offset)] else []
  }

  function Join(ps: seq<Pbuf>): (r: seq<byte>)
    decreases |ps|
  {
    if ps == [] then [] else ps[0] + Join(ps[1..])
  }

  lemma {:induction false} JoinAppend(ps: seq<Pbuf>, p: Pbuf)
    ensures Join(ps + [p]) == Join(ps) + p
    decreases |ps|
  {
    if ps == [] {
      assert [p][1..] == [];
    } else {
      assert (ps + [p])[1..] == ps[1..] + [p];
      JoinAppend(ps[1..], p);
    }
  }

  /** What the code's multi-byte read returns from a current pbuf of which `cur` is left and
      the pbufs queued behind it. Whenever it moves on to a queued pbuf it steps over as many
      bytes of it as it has just copied. */
  function Copied(cur: seq<byte>, rest: seq<Pbuf>, size: nat): (r: seq<byte>)
    ensures |r| <= size
    decreases |rest|
  {
    var n := Min(size, |cur|);
    if n < |cur| || rest == [] then cur[..n]
    else cur[..n] + (if n == size then [] else Copied(Past(rest[0], n), rest[1..], size - n))
  }

  /** A read leaves the current pbuf while another one is queued. */
  predicate Crosses(cur: seq<byte>, rest: seq<Pbuf>, size: nat) {
    size >= |cur| && rest != []
  }

  lemma CopiedInside(cur: seq<byte>, rest: seq<Pbuf>, size: nat)
    requires !Crosses(cur, rest, size)
    ensures Copied(cur, rest, size) == (cur + Join(rest))[..Min(size, |cur| + |Join(rest)|)]
  {
  }

  /** Two pbufs and a read of three bytes: the third byte is not the one sent third. */
  lemma CopiedAcross()
    ensures Copied([1, 2], [[3, 4, 5]], 3) == [1, 2, 5]
    ensures ([1, 2] + Join([[3, 4, 5]]))[..3] == [1, 2, 3]
  {
    var next: Pbuf := [3, 4, 5];
    assert Past(next, 2) == [5];
    assert Copied([5], [], 1) == [5];
    assert [next][1..] == [];
    assert Join([next]) == next + Join([]);
  }

  /** Bytes that leave the stream and are read. */
  lemma MovedOver(read: seq<byte>, was: seq<byte>, bytes: seq<byte>, now: seq<byte>, accepted: seq<byte>)
    requires read + was == accepted && was == bytes + now
    ensures read + bytes + now == accepted
  {
  }

  lemma Assoc(a: seq<byte>, b: seq<byte>, c: seq<byte>)
    ensures (a + b) + c == a + (b + c)
  {
  }

  lemma SplitBefore(a: seq<byte>, n: nat, b: seq<byte>)
    requires n <= |a|
    ensures a + b == a[..n] + (a[n..] + b)
  {
    Assoc(a[..n], a[n..], b);
    assert a == a[..n] + a[n..];
  }

  lemma PastLength(s: seq<byte>, n: nat)
    ensures |Past(s, n)| == |s| - Min(n, |s|)
  {
  }

  lemma ByteTaken(p: Pbuf, offset: nat)
    requires offset < |p|
    ensures Past(p, offset) == [p[offset]] + Past(p, offset + 1)
  {
  }

  /** The pbufs after a read of `n` bytes that does not go beyond the first. */
  function RestOf(parts: seq<seq<byte>>, n: nat): (r: seq<seq<byte>>) {
    if parts == [] then [] else if n < |parts[0]| then [parts[0][n..]] + parts[1..] else parts[1..]
  }

  /** struct pbuf_data */
  class PbufData {
    var p: Option<Pbuf>
    var available: u16
    var offset: u16
    const queue: Queue<Pbuf>
    /** Every byte accepted from the network, and every byte read. */
    ghost var accepted: seq<byte>
    ghost var read: seq<byte>

    ghost predicate Shape()
      reads this`p, queue, queue.items
      ensures Shape() ==> queue.Valid()
    {
      && queue.Valid() && |queue.Contents()| <= queue.capacity
      && (p == None ==> queue.Contents() == [])
      && forall k :: 0 <= k < |queue.Contents()| ==> queue.Contents()[k] != []
    }

    function Queued(): (n: nat)
      reads queue
    {
      Occupancy(queue.putCnt, queue.getCnt)
    }

    ghost function Current(): (r: seq<byte>)
      reads this`p, this`offset
    {
      if p == None then [] else Past(p.value, offset)
    }

    /** The bytes that can still be read, in order. */
    ghost function Stream(): (r: seq<byte>)
      reads this`p, this`offset, queue, queue.items
      requires queue.Valid()
    {
      Current() + Join(queue.Contents())
    }

    /** What is left of the current pbuf, and the pbufs behind it. */
    ghost function Parts(): (r: seq<seq<byte>>)
      reads this`p, this`offset, queue, queue.items
      requires queue.Valid()
    {
      if p == None then [] else [Current()] + queue.Contents()
    }

    ghost predicate Valid()
      reads this, queue, queue.items
    {
      && Shape() && available == |Stream()|
      && (p.Some? ==> offset < |p.value|)
      && read + Stream() == accepted
    }

    constructor (capacity: nat)
      requires 0 < capacity < 0x4000_0000
      ensures Valid() && accepted == [] && read == [] && p == None && queue.capacity == capacity
      ensures fresh(queue) && fresh(queue.items)
    {
      var slots := new Pbuf[capacity](_ => []);
      queue := new Queue<Pbuf>(slots);
      p, available, offset := None, 0, 0;
      accepted, read := [], [];
    }

    /** tcp_recv_callback for data on an open connection: the pbuf becomes current or is
        queued, and is dropped when the queue refuses it. The stream stays exact unless the byte
        count leaves 16 bits or the full queue is in its wrapped window. */
    method Arrive(q: Pbuf) returns (kept: bool)
      requires Valid() && q != []
      modifies this`p, this`available, this`offset, this`accepted, queue, queue.items
      ensures kept <==> old(p == None || |queue.Contents()| < queue.capacity || queue.Wrapped())
      ensures Valid() <==>
              !kept || (old(|Stream()|) + |q| <= 0xFFFF && old(|queue.Contents()| < queue.capacity || p == None))
      ensures p.Some? && available == if kept then Add16(old(available), |q|) else old(available)
      ensures queue.Valid() && (!kept || old(|queue.Contents()| < queue.capacity || p == None) ==> Shape())
      ensures Shape() ==> Stream() == old(Stream()) + if kept then q else []
      ensures Shape() ==> Parts() == old(Parts()) + if kept then [q] else []
      ensures kept ==> accepted == old(accepted) + q
      ensures !kept ==> accepted == old(accepted)
    {
      hide Around, Join, Past, PbufData.Stream, PbufData.Parts;
      if p == None {
        kept := true;
        Begin(q);
      } else {
        kept := Enqueue(q);
      }
      MovedIn(read, old(Stream()), if kept then q else []);
      if kept {
        accepted := accepted + q;
      }
    }

    lemma MovedIn(read: seq<byte>, was: seq<byte>, q: seq<byte>)
      ensures read + (was + q) == read + was + q && read + was + [] == read + was
    {
    }

    /** With nothing buffered, the pbuf becomes the current one. */
    method Begin(q: Pbuf)
      requires Valid() && q != [] && p == None
      modifies this`p, this`available, this`offset
      ensures Shape() && p.Some? && offset < |p.value| && available == Add16(old(available), |q|)
      ensures Stream() == old(Stream()) + q && Parts() == old(Parts()) + [q]
    {
      hide Around, Join, Past;
      JoinNothing();
      assert Stream() == [];
      p := Some(q);
      available := Add16(available, |q|);
      offset := 0;
      WholePbuf(q);
    }

    lemma NothingBuffered()
      requires Valid() && p == None
      ensures Stream() == [] && |queue.Contents()| == 0
    {
    }

    lemma WholePbuf(q: Pbuf)
      ensures Past(q, 0) + Join([]) == q == Past(q, 0)
    {
    }

    lemma JoinNothing()
      ensures Join([]) == []
    {
    }

    method Enqueue(q: Pbuf) returns (kept: bool)
      requires Valid() && q != [] && p.Some?
      modifies this`available, queue, queue.items
      ensures kept <==> old(|queue.Contents()| < queue.capacity || queue.Wrapped())
      ensures queue.Valid() && (Shape() <==> !kept || old(|queue.Contents()| < queue.capacity))
      ensures Shape() ==> Stream() == old(Stream()) + if kept then q else []
      ensures Shape() ==> Parts() == old(Parts()) + if kept then [q] else []
      ensures available == if kept then Add16(old(available), |q|) else old(available)
    {
      hide Around, Join, Past;
      ghost var was := queue.Contents();
      kept := queue.Put(q);
      if kept {
        available := Add16(available, |q|);
        JoinAppend(was, q);
        Assoc(Current(), Join(was), q);
      }
    }

    /** The read of one byte. */
    method GetByte(buffer: array<byte>) returns (n: u16)
      requires Valid() && buffer.Length > 0 && p.Some?
      modifies this`p, this`available, this`offset, this`read, queue, buffer
      ensures Valid() && n == 1 && accepted == old(accepted)
      ensures old(Stream()) == [buffer[0]] + Stream() && Parts() == RestOf(old(Parts()), 1)
      ensures forall k :: 1 <= k < buffer.Length ==> buffer[k] == old(buffer[k])
    {
      StreamStarts();
      hide Around, Join, Past, PbufData.Shape, PbufData.Stream, PbufData.Current;
      var b := p.value[offset];
      ghost var rest := Past(p.value, offset + 1) + Join(queue.Contents());
      buffer[0] := b;
      available := available - 1;
      Assoc(read, [b], rest);
      read := read + [b];
      Advance();
      n := 1;
    }

    lemma StreamStarts()
      requires Valid() && p.Some?
      ensures Stream() == [p.value[offset]] + (Past(p.value, offset + 1) + Join(queue.Contents()))
    {
      hide Join;
      ByteTaken(p.value, offset);
      Assoc([p.value[offset]], Past(p.value, offset + 1), Join(queue.Contents()));
    }

    /** The offset moves on by one, or the next pbuf becomes current. */
    method Advance()
      requires Shape() && p.Some? && offset < |p.value|
      modifies this`p, this`offset, queue
      ensures Shape() && Stream() == Past(old(p.value), old(offset) + 1) + Join(old(queue.Contents()))
      ensures Parts() == RestOf(old(Parts()), 1)
      ensures p.Some? ==> offset < |p.value|
    {
      hide Around, Join, Past;
      ByteTaken(p.value, offset);
      PastLength(p.value, offset);
      if offset + 1 == |p.value| {
        PastEnd(p.value);
        offset := 0;
        NextPbuf();
        if p.Some? {
          assert Current() == p.value by { WholePbuf(p.value); JoinNothing(); }
        }
      } else {
        offset := offset + 1;
      }
    }

    lemma PastEnd(q: Pbuf)
      ensures Past(q, |q|) == []
    {
    }

    /** A finished pbuf is freed and the next one taken from the queue, if there is one. */
    method NextPbuf()
      requires queue.Valid() && |queue.Contents()| <= queue.capacity
      modifies this`p, queue
      ensures queue.Valid()
      ensures old(queue.Contents()) == [] ==> p == None && queue.Contents() == []
      ensures old(queue.Contents()) != [] ==>
                p == Some(old(queue.Contents())[0]) && queue.Contents() == old(queue.Contents())[1..]
      ensures Join(old(queue.Contents())) == (if p == None then [] else p.value) + Join(queue.Contents())
    {
      hide Around;
      p := queue.Get();
    }

    /** stm32_get_data. A read that stays inside the current pbuf, or with nothing queued
        behind it, takes the next bytes of the stream and no others. Any other read of several
        bytes steps over bytes that were never read, and from then on the byte count is too
        high. */
    method GetData(buffer: array<byte>, size: nat) returns (n: u16)
      requires Valid() && size <= buffer.Length && size <= 0xFFFF
      modifies this`p, this`available, this`offset, this`read, queue, buffer
      ensures n <= size && queue.Valid() && accepted == old(accepted)
      ensures size != 1 ==> buffer[..n] == Copied(old(Current()), old(queue.Contents()), size)
      ensures Valid() <==> size <= 1 || !old(Crosses(Current(), queue.Contents(), size))
      ensures Valid() ==> n == Min(size, |old(Stream())|) && old(Stream()) == buffer[..n] + Stream()
      ensures Valid() ==> Parts() == RestOf(old(Parts()), n)
      ensures !Valid() ==> available > |Stream()|
      ensures forall k :: n <= k < buffer.Length ==> buffer[k] == old(buffer[k])
    {
      if p == None || size == 0 || available == 0 {
        return 0;
      }
      if size == 1 {
        n := GetByte(buffer);
        assert buffer[..1] == [buffer[0]];
        return;
      }
      n := GetBytes(buffer, size);
    }

    /** The loop of stm32_get_data. */
    method GetBytes(buffer: array<byte>, size: nat) returns (n: u16)
      requires Valid() && p.Some? && 1 < size <= buffer.Length && size <= 0xFFFF
      modifies this`p, this`available, this`offset, this`read, queue, buffer
      ensures n <= size && queue.Valid() && accepted == old(accepted)
      ensures buffer[..n] == Copied(old(Current()), old(queue.Contents()), size)
      ensures Valid() <==> !old(Crosses(Current(), queue.Contents(), size))
      ensures Valid() ==> old(Stream()) == buffer[..n] + Stream() && (n == size || Stream() == [])
      ensures Valid() ==> Parts() == RestOf(old(Parts()), n)
      ensures !Valid() ==> available > |Stream()|
      ensures forall k :: n <= k < buffer.Length ==> buffer[k] == old(buffer[k])
    {
      StillLeft(size);
      hide Around, Join, Past, Copied, Crosses, Occupancy;
      hide RestOf, PbufData.Stream, PbufData.Current, PbufData.Left, PbufData.Shape, PbufData.Parts;
      ghost var was := Stream();
      ghost var lost, bytes;
      n, bytes, lost := CopyAll(buffer, size);
      assert buffer[..n] == bytes;
      if lost == 0 {
        MovedOver(read, was, bytes, Stream(), accepted);
      }
      read := read + bytes;
    }

    lemma StillLeft(size: nat)
      requires Valid() && p.Some? && size > 0
      ensures |Current()| > 0 && Left(size) == Copied(Current(), queue.Contents(), size)
    {
      hide Around, Join, Copied;
    }

    /** The loop itself; `lost` counts the bytes stepped over. */
    method CopyAll(buffer: array<byte>, size: nat) returns (n: u16, ghost bytes: seq<byte>, ghost lost: nat)
      requires Shape() && p.Some? && available == |Stream()| && |Current()| > 0 && 0 < size <= buffer.Length
      requires size <= 0xFFFF
      modifies this`p, this`available, this`offset, queue, buffer
      ensures Shape() && n <= size && |bytes| == n && bytes == old(Left(size))
      ensures lost > 0 <==> old(Crosses(Current(), queue.Contents(), size))
      ensures available == |Stream()| + lost
      ensures lost == 0 ==> old(Stream()) == bytes + Stream() && (n == size || p == None)
      ensures lost == 0 && p.Some? ==> offset < |p.value|
      ensures lost == 0 ==> Parts() == RestOf(old(Parts()), n)
      ensures p == None ==> Stream() == []
      ensures forall k :: 0 <= k < n ==> buffer[k] == bytes[k]
      ensures forall k :: n <= k < buffer.Length ==> buffer[k] == old(buffer[k])
    {
      hide Around, Join, Past, Copied, Crosses, RestOf, Occupancy;
      hide PbufData.Stream, PbufData.Current, PbufData.Left, PbufData.Shape, PbufData.Parts;
      n, bytes, lost := CopyRound(buffer, 0, size);
      while n < size && p.Some?
        invariant n <= size && Shape() && (n == size || p == None || lost > 0) && |bytes| == n
        invariant lost > 0 <==> old(Crosses(Current(), queue.Contents(), size))
        invariant available == |Stream()| + lost
        invariant lost == 0 ==> old(Stream()) == bytes + Stream() && (p.Some? ==> offset < |p.value|)
        invariant lost == 0 ==> Parts() == RestOf(old(Parts()), n)
        invariant bytes + Left(size - n) == old(Left(size))
        invariant forall k :: 0 <= k < n ==> buffer[k] == bytes[k]
        invariant forall k :: n <= k < buffer.Length ==> buffer[k] == old(buffer[k])
        decreases |queue.Contents()| + (if p.Some? then 1 else 0), size - n
      {
        var copied;
        ghost var more, skipped;
        copied, more, skipped := CopyRound(buffer, n, size - n);
        n, lost := n + copied, lost + skipped;
        Assoc(bytes, more, Left(size - n));
        bytes := bytes + more;
      }
      NothingLeft(size - n);
    }

    lemma NothingLeft(size: nat)
      requires queue.Valid() && (p == None || size == 0)
      ensures Left(size) == [] && (p == None && Shape() ==> Stream() == [])
    {
    }

    /** What the loop has still to copy. */
    ghost function Left(size: nat): (r: seq<byte>)
      reads this`p, this`offset, queue, queue.items
      requires queue.Valid()
    {
      if p == None || size == 0 then [] else Copied(Current(), queue.Contents(), size)
    }

    /** What one round does to the stream. */
    lemma StreamOver(cur: seq<byte>, rest: seq<Pbuf>, n: nat)
      requires n <= |cur|
      ensures cur + Join(rest) == cur[..n] + (cur[n..] + Join(rest))
      ensures rest != [] ==> Join(rest) == rest[0] + Join(rest[1..])
      ensures rest != [] ==> |Past(rest[0], n)| == |rest[0]| - Min(n, |rest[0]|)
      ensures rest == [] ==> Join(rest) == []
    {
      hide Join, Past;
      SplitBefore(cur, n, Join(rest));
      if rest != [] {
        PastLength(rest[0], n);
      }
      if rest == [] { JoinNothing(); } else { JoinNext(rest); }
    }

    lemma JoinNext(rest: seq<Pbuf>)
      requires rest != []
      ensures Join(rest) == rest[0] + Join(rest[1..])
    {
    }

    /** What one round does to what is still to be copied. */
    lemma CopiedOver(cur: seq<byte>, rest: seq<Pbuf>, size: nat)
      ensures var n := Min(size, |cur|);
              Copied(cur, rest, size) == cur[..n] +
                if n == size || rest == [] then [] else Copied(Past(rest[0], n), rest[1..], size - n)
    {
      assert cur[..Min(size, |cur|)] + [] == cur[..Min(size, |cur|)];
    }

    /** One round of the loop: bytes of the current pbuf are copied, and when it is finished
        the next one becomes current, with an offset of as many bytes as were copied, which so
        are skipped. */
    method CopyRound(buffer: array<byte>, n: nat, toCopy: nat)
        returns (copied: u16, ghost bytes: seq<byte>, ghost skipped: nat)
      requires Shape() && p.Some? && 0 < toCopy <= 0xFFFF && n + toCopy <= buffer.Length && available >= |Stream()|
      modifies this`p, this`available, this`offset, queue, buffer
      ensures Shape() && copied <= toCopy && available == old(available) - copied
      ensures forall k :: n + copied <= k < buffer.Length ==> buffer[k] == old(buffer[k])
      ensures |bytes| == copied && forall k :: 0 <= k < n ==> buffer[k] == old(buffer[k])
      ensures forall k :: n <= k < n + copied ==> buffer[k] == bytes[k - n]
      ensures bytes + Left(toCopy - copied) == old(Left(toCopy))
      ensures |old(Stream())| == copied + skipped + |Stream()|
      ensures skipped > 0 <==> copied > 0 && old(Crosses(Current(), queue.Contents(), toCopy))
      ensures old(!Crosses(Current(), queue.Contents(), toCopy)) ==> old(Stream()) == bytes + Stream()
      ensures old(!Crosses(Current(), queue.Contents(), toCopy)) && p.Some? ==> copied == toCopy && offset < |p.value|
      ensures old(!Crosses(Current(), queue.Contents(), toCopy)) ==> Parts() == RestOf(old(Parts()), copied)
      ensures copied == 0 ==> |old(Current())| == 0
      ensures copied == toCopy || p == None || |queue.Contents()| < |old(queue.Contents())|
      ensures |queue.Contents()| <= |old(queue.Contents())|
    {
      hide Around, Join, Past, Copied;
      ghost var cur, rest := Current(), queue.Contents();
      StreamOver(cur, rest, Min(toCopy, |cur|));
      CopiedOver(cur, rest, toCopy);
      assert rest != [] ==> rest[0] != [];
      copied := CopyOut(buffer, n, toCopy);
      bytes := cur[..copied];
      skipped := if copied == |cur| && rest != [] then Min(copied, |rest[0]|) else 0;
    }

    /** The moves of one round. */
    method CopyOut(buffer: array<byte>, n: nat, toCopy: nat) returns (copied: u16)
      requires Shape() && p.Some? && 0 < toCopy <= 0xFFFF && n + toCopy <= buffer.Length && available >= |Current()|
      modifies this`p, this`available, this`offset, queue, buffer
      ensures Shape() && copied == Min(toCopy, |old(Current())|) && available == old(available) - copied
      ensures forall k :: 0 <= k < n ==> buffer[k] == old(buffer[k])
      ensures forall k :: n <= k < n + copied ==> buffer[k] == old(Current())[k - n]
      ensures forall k :: n + copied <= k < buffer.Length ==> buffer[k] == old(buffer[k])
      ensures copied < |old(Current())| ==> p.Some? && offset < |p.value| && Current() == old(Current())[copied..]
      ensures copied < |old(Current())| ==> queue.Contents() == old(queue.Contents())
      ensures copied == |old(Current())| && old(queue.Contents()) == [] ==> p == None && queue.Contents() == []
      ensures copied == |old(Current())| && old(queue.Contents()) != [] ==>
                && p == Some(old(queue.Contents())[0]) && Current() == Past(p.value, copied)
                && queue.Contents() == old(queue.Contents())[1..]
    {
      hide Around, Join;
      var bytes := CopyPartial(p.value, toCopy, offset);
      copied := |bytes|;
      assert bytes == Current()[..copied];
      Store(buffer, n, bytes);
      available := available - copied;
      if copied < toCopy || offset + copied == |p.value| {
        offset := 0;
        NextPbuf();
        if p == None {
          return;
        }
      }
      offset := offset + copied;
    }

    method Store(buffer: array<byte>, n: nat, bytes: seq<byte>)
      requires n + |bytes| <= buffer.Length
      modifies buffer
      ensures forall k :: 0 <= k < n ==> buffer[k] == old(buffer[k])
      ensures forall k :: n <= k < n + |bytes| ==> buffer[k] == bytes[k - n]
      ensures forall k :: n + |bytes| <= k < buffer.Length ==> buffer[k] == old(buffer[k])
    {
      forall k | 0 <= k < |bytes| {
        buffer[n + k] := bytes[k];
      }
    }

    /** The same number of reads of one byte each: with GetData's contract, a read that does
        not cross equals it, byte for byte and in the state it leaves. */
    method GetSingly(buffer: array<byte>, size: nat) returns (bytes: seq<byte>)
      requires Valid() && buffer.Length > 0
      modifies this`p, this`available, this`offset, this`read, queue, buffer
      ensures Valid() && |bytes| == Min(size, |old(Stream())|) && old(Stream()) == bytes + Stream()
      ensures accepted == old(accepted)
    {
      hide Around, Join, Past, Copied, PbufData.Current;
      bytes := [];
      var i := 0;
      while i < size
        invariant i <= size && Valid() && accepted == old(accepted)
        invariant |bytes| == Min(i, |old(Stream())|) && old(Stream()) == bytes + Stream()
      {
        var n := GetData(buffer, 1);
        Assoc(bytes, buffer[..n], Stream());
        bytes := bytes + buffer[..n];
        i := i + 1;
      }
    }
  }

  /** Something that happens on the connection. */
  datatype Step = Arrives(q: Pbuf) | Reads(size: nat)

  /** What a step answers: was the pbuf kept, or which bytes were read. */
  datatype Reply = Took(kept: bool) | Gave(bytes: seq<byte>)

  /** An exact step on the pbufs: one that arrives is kept while there is none or the queue has
      room, and a read takes what the first one has, up to its size. */
  function Next(capacity: nat, parts: seq<seq<byte>>, step: Step): (r: (seq<seq<byte>>, Reply)) {
    match step
    case Arrives(q) => if |parts| <= capacity then (parts + [q], Took(true)) else (parts, Took(false))
    case Reads(size) =>
      var n := if parts == [] then 0 else Min(size, |parts[0]|);
      (if n == 0 then parts else RestOf(parts, n), Gave(if n == 0 then [] else parts[0][..n]))
  }

  function Replies(capacity: nat, parts: seq<seq<byte>>, steps: seq<Step>): (r: (seq<seq<byte>>, seq<Reply>))
    ensures |r.1| == |steps|
    decreases |steps|
  {
    if steps == [] then (parts, []) else
      var before := Replies(capacity, parts, steps[..|steps| - 1]);
      var now := Next(capacity, before.0, steps[|steps| - 1]);
      (now.0, before.1 + [now.1])
  }

  lemma RepliesMore(capacity: nat, parts: seq<seq<byte>>, steps: seq<Step>, n: nat)
    requires n < |steps|
    ensures var before := Replies(capacity, parts, steps[..n]);
            var now := Next(capacity, before.0, steps[n]);
            Replies(capacity, parts, steps[..n + 1]) == (now.0, before.1 + [now.1])
  {
    hide Next;
    assert steps[..n + 1][..n] == steps[..n];
  }

  /** The bytes of the arrivals that were kept, and the bytes that were read. */
  function Taken(steps: seq<Step>, replies: seq<Reply>): (r: seq<byte>)
    requires |replies| <= |steps|
    decreases |replies|
  {
    if replies == [] then [] else
      var n := |replies| - 1;
      Taken(steps, replies[..n])
      + if steps[n].Arrives? && replies[n].Took? && replies[n].kept then steps[n].q else []
  }

  function Given(replies: seq<Reply>): (r: seq<byte>)
    decreases |replies|
  {
    if replies == [] then [] else
      var n := |replies| - 1;
      Given(replies[..n]) + if replies[n].Gave? then replies[n].bytes else []
  }

  lemma ReplyAdded(steps: seq<Step>, replies: seq<Reply>, r: Reply)
    requires |replies| < |steps|
    ensures Taken(steps, replies + [r]) ==
      Taken(steps, replies) + if steps[|replies|].Arrives? && r.Took? && r.kept then steps[|replies|].q else []
    ensures Given(replies + [r]) == Given(replies) + if r.Gave? then r.bytes else []
  {
    assert (replies + [r])[..|replies|] == replies;
  }

  /** A step after which the stream would not be exact, or that cannot happen: an empty pbuf, a
      pbuf that is kept and takes the count beyond 16 bits or goes into a full queue, a read
      beyond the buffer, a read that crosses. */
  predicate Inexact(d: PbufData, step: Step, room: nat)
    reads d, d.queue
  {
    match step
    case Arrives(q) =>
      || q == []
      || ((d.p == None || d.Queued() < d.queue.capacity) && d.available + |q| > 0xFFFF)
      || (d.p.Some? && d.Queued() >= d.queue.capacity && d.queue.Wrapped())
    case Reads(size) =>
      || size > room || size > 0xFFFF
      || (size > 1 && d.p.Some? && d.Queued() > 0 && d.offset + size >= |d.p.value|)
  }

  /** What that says of the bytes that are buffered. */
  lemma InexactMeans(d: PbufData, step: Step, room: nat)
    requires d.Valid()
    ensures step.Arrives? ==>
      (Inexact(d, step, room) <==>
       step.q == [] || (|d.Parts()| <= d.queue.capacity && |d.Stream()| + |step.q| > 0xFFFF)
       || (|d.Parts()| > d.queue.capacity && d.queue.putCnt < d.queue.getCnt))
    ensures step.Reads? ==>
      (Inexact(d, step, room) <==>
       step.size > room || step.size > 0xFFFF
       || (step.size > 1 && |d.Parts()| > 1 && step.size >= |d.Parts()[0]|))
  {
    hide Around, Join;
  }

  /** Any interleaving of arrivals and reads, up to the first step that is not exact and no
      further, answer by answer: the bytes read, followed by those still buffered, are the bytes
      kept, in order. */
  method Run(d: PbufData, steps: seq<Step>, buffer: array<byte>) returns (replies: seq<Reply>)
    requires d.Valid()
    modifies d`p, d`available, d`offset, d`read, d`accepted, d.queue, d.queue.items, buffer
    ensures |replies| <= |steps| && (|replies| < |steps| ==> Inexact(d, steps[|replies|], buffer.Length))
    ensures d.Valid() && d.read + d.Stream() == d.accepted
    ensures (d.Parts(), replies) == Replies(d.queue.capacity, old(d.Parts()), steps[..|replies|])
    ensures d.accepted == old(d.accepted) + Taken(steps, replies) && d.read == old(d.read) + Given(replies)
  {
    hide Around, Join, PbufData.Stream, PbufData.Parts, Inexact, Taken, Given, Next;
    replies := [];
    ghost var start := d.Parts();
    NoReplies(d.queue.capacity, start, steps);
    while |replies| < |steps|
      invariant |replies| <= |steps| && d.Valid()
      invariant (d.Parts(), replies) == Replies(d.queue.capacity, start, steps[..|replies|])
      invariant d.accepted == old(d.accepted) + Taken(steps, replies) && d.read == old(d.read) + Given(replies)
      decreases |steps| - |replies|
    {
      if Inexact(d, steps[|replies|], buffer.Length) {
        return;
      }
      RepliesMore(d.queue.capacity, start, steps, |replies|);
      var r := TakeStep(d, steps[|replies|], buffer);
      ReplyAdded(steps, replies, r);
      replies := replies + [r];
    }
  }

  lemma NoReplies(capacity: nat, parts: seq<seq<byte>>, steps: seq<Step>)
    ensures Taken(steps, []) == [] && Given([]) == []
    ensures Replies(capacity, parts, steps[..0]) == (parts, [])
  {
  }

  /** One exact step. */
  method TakeStep(d: PbufData, step: Step, buffer: array<byte>) returns (r: Reply)
    requires d.Valid() && !Inexact(d, step, buffer.Length)
    modifies d`p, d`available, d`offset, d`read, d`accepted, d.queue, d.queue.items, buffer
    ensures d.Valid() && (d.Parts(), r) == Next(d.queue.capacity, old(d.Parts()), step)
    ensures d.accepted == old(d.accepted) + if step.Arrives? && r.Took? && r.kept then step.q else []
    ensures d.read == old(d.read) + if r.Gave? then r.bytes else []
  {
    PartsJoined(d);
    hide Around, Join, PbufData.Stream;
    match step {
      case Arrives(q) =>
        var kept := d.Arrive(q);
        r := Took(kept);
        assert kept <==> |old(d.Parts())| <= d.queue.capacity;
        assert old(d.Parts()) + [] == old(d.Parts());
      case Reads(size) =>
        ghost var parts, stream := d.Parts(), d.Stream();
        var n := d.GetData(buffer, size);
        r := Gave(buffer[..n]);
        Assoc(old(d.read), buffer[..n], d.Stream());
        SameHead(d.read, old(d.read) + buffer[..n], d.Stream());
        ReadIsNext(d.queue.capacity, parts, stream, size, n, buffer[..n], d.Stream());
    }
  }

  /** A read that does not cross takes bytes of the first pbuf. */
  lemma ReadIsNext(capacity: nat, parts: seq<seq<byte>>, stream: seq<byte>, size: nat, n: nat, bytes: seq<byte>,
      now: seq<byte>)
    requires parts == [] ==> stream == []
    requires parts != [] ==> parts[0] != [] && parts[0] <= stream && (|parts| == 1 ==> stream == parts[0])
    requires |parts| > 1 && size > 1 ==> size < |parts[0]|
    requires n == Min(size, |stream|) == |bytes| && stream == bytes + now
    ensures Next(capacity, parts, Reads(size)) == (RestOf(parts, n), Gave(bytes))
  {
    assert bytes == stream[..n];
    if parts != [] {
      assert parts[0] == stream[..|parts[0]|];
      assert bytes == parts[0][..n];
      assert parts == [parts[0][0..]] + parts[1..];
    }
  }

  /** The stream is what the pbufs hold, and none of them is empty. */
  lemma PartsJoined(d: PbufData)
    requires d.Valid()
    ensures d.p == None ==> d.Parts() == [] && d.Stream() == []
    ensures d.p.Some? ==> d.Parts() != [] && d.Parts()[0] != [] && d.Parts()[0] == d.Current()
    ensures d.p.Some? ==> d.Stream() == d.Parts()[0] + Join(d.Parts()[1..]) && |d.Parts()| == |d.queue.Contents()| + 1
  {
    hide Around;
  }

  /** A pbuf of 65535 bytes and one of a single byte: the count starts again from zero while
      65536 bytes are buffered. */
  method CountOverflows(big: Pbuf) returns (d: PbufData)
    requires |big| == 0xFFFF
    ensures fresh(d) && !d.Valid() && d.available == 0
    ensures d.Shape() && |d.Stream()| == 0x1_0000 && d.accepted == big + [0]
  {
    hide Around, Join, Past, PbufData.Stream;
    d := new PbufData(2);
    d.NothingBuffered();
    var first := d.Arrive(big);
    var second := d.Arrive([0]);
  }
}
