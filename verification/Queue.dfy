/**
 * The array-backed ring queue of src/utility/queue.c, with its 32-bit put and get
 * counters. The occupancy test of `is_full` is one too low once the put counter has
 * wrapped past zero and the get counter has not, so a full queue accepts one more item
 * in that window. Contracts state the behaviour in every window.
 */
module RingQueue {
  import opened Prelude

  /** Items between the two free-running counters. */
  function Occupancy(put: u32, get: u32): (n: u32) {
    Sub32(put, get)
  }

  /** `is_full` as it is written. */
  predicate FullTest(put: u32, get: u32, capacity: u32) {
    if put < get then Add32(Sub32(0xFFFF_FFFF, get), put) >= capacity else put - get >= capacity
  }

  /** For every counter pair that a queue can hold, the test answers "full" at capacity
      exactly when the put counter is not the one that has wrapped. */
  lemma FullTestExact(put: u32, get: u32, capacity: u32)
    requires 0 < capacity < TWO_32 - 1
    requires Occupancy(put, get) <= capacity
    ensures FullTest(put, get, capacity) <==> Occupancy(put, get) == capacity && put >= get
  {
  }

  /** A concrete window: four items in four slots, and the test says there is room. */
  lemma FullTestMissesWrappedQueue()
    ensures Occupancy(2, 0xFFFF_FFFE) == 4 && !FullTest(2, 0xFFFF_FFFE, 4)
  {
  }

  /** The step `(i + 1) % capacity` that both cursors take. */
  method NextSlot(i: u32, capacity: u32) returns (r: u32)
    requires i < capacity
    ensures r == if i + 1 == capacity then 0 else i + 1
  {
    r := (i + 1) % capacity;
    if i + 1 < capacity {
      assert (i + 1) / capacity == 0;
    }
  }

  /** The `n` items found from slot `front` on, going round the ring. */
  ghost function Around<T>(slots: seq<T>, front: nat, n: nat): (s: seq<T>)
    requires front < |slots| && n <= |slots| + 1
    ensures |s| == n
  {
    if front + n <= |slots| then slots[front..front + n] else slots[front..] + slots[..front + n - |slots|]
  }

  /** Writing the slot behind the last item appends; when every slot is taken it also
      replaces the first item. */
  lemma AroundPut<T>(slots: seq<T>, front: nat, n: nat, rear: nat, item: T)
    requires front < |slots| && n <= |slots| && rear < |slots|
    requires rear == front + n || rear + |slots| == front + n
    ensures var was := Around(slots, front, n);
            Around(slots[rear := item], front, n + 1)
            == if n < |slots| then was + [item] else [item] + was[1..] + [item]
  {
    var was, now := Around(slots, front, n), Around(slots[rear := item], front, n + 1);
    var goal := if n < |slots| then was + [item] else [item] + was[1..] + [item];
    forall i | 0 <= i < |now| ensures now[i] == goal[i] {
    }
  }

  class Queue<T(0)> {
    var front: u32
    var rear: u32
    var putCnt: u32
    var getCnt: u32
    const capacity: u32
    const items: array<T>

    ghost predicate Valid()
      reads this
    {
      && 0 < capacity == items.Length < TWO_32 - 1
      && front < capacity && rear < capacity
      && Count() <= capacity + 1
      && (rear + 1 == front + Count()
          || rear + 1 + capacity == front + Count() || rear + 1 == front + Count() + capacity)
    }

    ghost function Count(): u32
      reads this
    {
      Occupancy(putCnt, getCnt)
    }

    /** The put counter has wrapped past zero and the get counter has not. */
    predicate Wrapped()
      reads this
    {
      putCnt < getCnt
    }

    /** The queued items, oldest first. */
    ghost function Contents(): (s: seq<T>)
      reads this, items
      requires Valid()
      ensures |s| == Count()
    {
      Around(items[..], front, Count())
    }

    /** queue_init over the array `b`. */
    constructor (b: array<T>)
      requires 0 < b.Length < TWO_32 - 1
      ensures Valid() && items == b && capacity == b.Length
      ensures putCnt == 0 && Contents() == []
    {
      front := 0;
      rear := b.Length - 1;
      putCnt, getCnt := 0, 0;
      capacity := b.Length;
      items := b;
    }

    predicate IsFull()
      reads this
    {
      FullTest(putCnt, getCnt, capacity)
    }

    predicate IsEmpty()
      reads this
      ensures IsEmpty() <==> Count() == 0
    {
      putCnt == getCnt
    }

    /** Appends below capacity and refuses at capacity, except in the wrapped window: there
        a full queue takes the item, which replaces the oldest one and is then queued at
        both ends of the same slot. */
    method Put(item: T) returns (ok: bool)
      requires Valid()
      modifies this, items
      ensures Valid() && getCnt == old(getCnt)
      ensures ok <==> |old(Contents())| < capacity || (|old(Contents())| == capacity && old(Wrapped()))
      ensures putCnt == if ok then Add32(old(putCnt), 1) else old(putCnt)
      ensures !ok ==> Contents() == old(Contents())
      ensures ok && |old(Contents())| < capacity ==> Contents() == old(Contents()) + [item]
      ensures ok && |old(Contents())| == capacity ==>
                Contents() == [item] + old(Contents())[1..] + [item]
    {
      hide Around;
      ghost var was, slots, n := Contents(), items[..], Count();
      if IsFull() {
        return false;
      }
      assert n <= capacity && (n == capacity ==> Wrapped());
      rear := NextSlot(rear, capacity);
      AroundPut(slots, front, n, rear, item);
      items[rear] := item;
      putCnt := Add32(putCnt, 1);
      assert Count() == n + 1;
      assert items[..] == slots[rear := item];
      return true;
    }

    /** Takes the oldest item; None only when the queue is empty. */
    method Get() returns (item: Option<T>)
      requires Valid()
      modifies this
      ensures Valid() && putCnt == old(putCnt)
      ensures old(Contents()) == [] ==> item == None && Contents() == [] && getCnt == old(getCnt)
      ensures old(Contents()) != [] ==>
                item == Some(old(Contents())[0]) && Contents() == old(Contents())[1..]
                && getCnt == Add32(old(getCnt), 1)
    {
      if IsEmpty() {
        return None;
      }
      item := Some(items[front]);
      ghost var was := Contents();
      assert item.value == was[0];
      front := NextSlot(front, capacity);
      getCnt := Add32(getCnt, 1);
      assert Contents() == was[1..];
    }
  }

  datatype Op<T> = Put(item: T) | Get

  datatype Reply<T> = Stored(ok: bool) | Taken(item: Option<T>)

  /** The bounded first-in first-out queue that callers expect. */
  function Fifo<T>(capacity: nat, content: seq<T>, ops: seq<Op<T>>): (r: (seq<T>, seq<Reply<T>>))
    decreases |ops|
  {
    if ops == [] then (content, []) else
      var (now, replies) := Fifo(capacity, content, ops[..|ops| - 1]);
      match ops[|ops| - 1]
      case Put(x) =>
        if |now| < capacity then (now + [x], replies + [Stored(true)]) else (now, replies + [Stored(false)])
      case Get =>
        if now == [] then (now, replies + [Taken(None)]) else (now[1..], replies + [Taken(Some(now[0]))])
  }

  /** Any run of operations that ends before the put counter wraps is a run of the bounded
      queue, reply by reply. */
  method Replay<T(0)>(q: Queue<T>, ops: seq<Op<T>>) returns (replies: seq<Reply<T>>)
    requires q.Valid() && |q.Contents()| <= q.capacity
    requires !q.Wrapped() && q.putCnt + |ops| < TWO_32
    modifies q, q.items
    ensures q.Valid()
    ensures (q.Contents(), replies) == Fifo(q.capacity, old(q.Contents()), ops)
  {
    replies := [];
    ghost var start, room := q.Contents(), q.capacity;
    for k := 0 to |ops|
      invariant q.Valid() && q.capacity == room
      invariant |q.Contents()| <= room && !q.Wrapped() && q.putCnt + (|ops| - k) < TWO_32
      invariant (q.Contents(), replies) == Fifo(room, start, ops[..k])
    {
      assert ops[..k + 1][..k] == ops[..k];
      match ops[k] {
        case Put(x) =>
          var ok := q.Put(x);
          replies := replies + [Stored(ok)];
        case Get =>
          var item := q.Get();
          replies := replies + [Taken(item)];
      }
    }
    assert ops[..|ops|] == ops;
  }
}
