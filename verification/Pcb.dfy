/**
 * The part of a TCP connection that httpd.c writes to. The stack's answers are arbitrary: a
 * write may be refused for lack of memory or fail outright, unless it is said how much memory
 * there is.
 */
module TcpOut {
  import opened Prelude

  datatype Err = ErrOk | ErrMem | ErrOther

  /** What the stack answers: always success, anything, always that it has no memory, or that just
      when a write is of more than so many bytes; then its queue of segments is full or not. */
  datatype Memory = Plenty | Unknown | Exhausted | UpTo(most: u16, queueFull: bool)

  /** Of `len`, half of it, half of that and so on, the first that is no more than `most`; a single
      byte is only tried when it is all there is. */
  function Fitting(len: nat, most: nat): (n: nat) {
    if len <= most then len else if len / 2 > 1 then Fitting(len / 2, most) else 0
  }

  /** `len` after `j` halvings. */
  function Halved(len: nat, j: nat): (n: nat) {
    if j == 0 then len else Halved(len, j - 1) / 2
  }

  lemma {:induction false} HalvedFirst(len: nat, j: nat)
    ensures Halved(len / 2, j) == Halved(len, j + 1)
  {
    if j > 0 {
      HalvedFirst(len, j - 1);
    } else {
      assert Halved(len, 1) == Halved(len, 0) / 2;
    }
  }

  /** The length is the first of the halves that fits, and there is none exactly when all of
      those of two bytes or more are too long. */
  lemma {:induction false} FittingMeans(len: nat, most: nat) returns (j: nat)
    requires len > 0
    ensures forall i :: 0 <= i < j ==> Halved(len, i) > most
    ensures Fitting(len, most) > 0 ==> Fitting(len, most) == Halved(len, j) <= most
    ensures Fitting(len, most) == 0 ==> j > 0 && Halved(len, j) <= 1
  {
    if len <= most {
      j := 0;
    } else if len / 2 > 1 {
      var i := FittingMeans(len / 2, most);
      j := i + 1;
      forall k: nat | k < j ensures Halved(len, k) > most {
        if k > 0 {
          HalvedFirst(len, k - 1);
        }
      }
      HalvedFirst(len, i);
    } else {
      j := 1;
      assert Halved(len, 1) == Halved(len, 0) / 2;
    }
  }

  /** A limit on the length of a single write. */
  type Limit = m: u16 | m > 0 witness 1

  class Pcb {
    /** Every byte accepted by the stack so far. */
    var wire: seq<byte>
    var sndbuf: u16
    /** HTTPD_MAX_WRITE_LEN, where the build has it. */
    const maxWrite: Option<Limit>
    var memory: Memory

    constructor (sndbuf: u16, maxWrite: Option<Limit>, memory: Memory)
      ensures this.sndbuf == sndbuf && this.maxWrite == maxWrite && this.memory == memory && wire == []
    {
      this.wire := [];
      this.sndbuf := sndbuf;
      this.maxWrite := maxWrite;
      this.memory := memory;
    }

    /** altcp_write: all of the bytes or none of them. */
    method Write(bytes: seq<byte>) returns (err: Err)
      requires |bytes| <= sndbuf
      modifies this`wire, this`sndbuf
      ensures err == ErrOk ==> wire == old(wire) + bytes && sndbuf == old(sndbuf) - |bytes|
      ensures err != ErrOk ==> wire == old(wire) && sndbuf == old(sndbuf)
      ensures memory == Plenty ==> err == ErrOk
      ensures memory == Exhausted ==> err == ErrMem
      ensures memory.UpTo? ==> err == if |bytes| <= memory.most then ErrOk else ErrMem
    {
      err := *;
      if memory == Plenty {
        err := ErrOk;
      } else if memory == Exhausted {
        err := ErrMem;
      } else if memory.UpTo? {
        err := if |bytes| <= memory.most then ErrOk else ErrMem;
      }
      if err == ErrOk {
        wire := wire + bytes;
        sndbuf := sndbuf - |bytes|;
      }
    }

    /** The stack frees send buffer space and memory between callbacks. */
    method Acked(room: u16, memory: Memory)
      modifies this`sndbuf, this`memory
      ensures sndbuf == room && this.memory == memory
    {
      sndbuf, this.memory := room, memory;
    }

    /** http_write: tries shorter and shorter prefixes of `ptr` while memory is short. It
        ends after finitely many tries, with at most the smaller of the request and the send
        buffer on the wire, and with all of that when nothing stands in the way. */
    method HttpWrite(ptr: seq<byte>) returns (err: Err, length: u16)
      requires |ptr| <= 0xFFFF
      modifies this`wire, this`sndbuf
      ensures length <= Min(|ptr|, old(sndbuf))
      ensures wire == old(wire) + ptr[..length] && sndbuf == old(sndbuf) - length
      ensures err != ErrOk ==> length == 0
      ensures err == ErrOk && ptr != [] && old(sndbuf) > 0 ==> length > 0
      ensures ptr == [] ==> err == ErrOk
      ensures memory == Plenty ==> err == ErrOk
      ensures memory == Plenty && maxWrite == None ==> length == Min(|ptr|, old(sndbuf))
      ensures memory == Exhausted ==> (err == ErrOk <==> ptr == [])
      ensures memory == Plenty && maxWrite.Some? ==> length == Min(Min(|ptr|, old(sndbuf)), maxWrite.value)
      ensures memory.UpTo? && old(sndbuf) > 0 && ptr != [] ==>
                var room := Min(|ptr|, old(sndbuf));
                var n := if maxWrite.Some? then Min(room, maxWrite.value) else room;
                && length == (if memory.queueFull && n > memory.most then 0 else Fitting(n, memory.most))
                && (err == ErrOk <==> length > 0)
    {
      var len: u16 := |ptr|;
      if len == 0 {
        return ErrOk, 0;
      }
      if sndbuf < len {
        len := sndbuf;
      }
      if maxWrite.Some? && len > maxWrite.value {
        len := maxWrite.value;
      }
      ghost var room, most := Min(|ptr|, old(sndbuf)), len;
      var again := true;
      err := ErrOk;
      while again
        invariant most <= Min(|ptr|, old(sndbuf))
        invariant len <= most || (!again && err != ErrOk)
        invariant again || err != ErrOk ==> wire == old(wire) && sndbuf == old(sndbuf)
        invariant !again && err == ErrOk ==> wire == old(wire) + ptr[..len] && sndbuf == old(sndbuf) - len
        invariant old(sndbuf) > 0 && (again || err == ErrOk) ==> len > 0
        invariant memory == Plenty ==> err == ErrOk && len == most
        invariant memory == Exhausted ==> again || err != ErrOk
        invariant most == if maxWrite.Some? then Min(room, maxWrite.value) else room
        invariant memory.UpTo? && old(sndbuf) > 0 ==>
                    && (again ==> Fitting(len, memory.most) == Fitting(most, memory.most))
                    && (again ==> len == most || !(memory.queueFull && most > memory.most))
                    && (!again && err == ErrOk ==>
                          len == Fitting(most, memory.most) && !(memory.queueFull && most > memory.most))
                    && (!again && err != ErrOk ==>
                          Fitting(most, memory.most) == 0 || (memory.queueFull && most > memory.most))
        decreases if again then len + 1 else 0
      {
        err := Write(ptr[..len]);
        again := false;
        if err == ErrMem {
          var queueFull: bool := *;
          if memory.UpTo? {
            queueFull := memory.queueFull;
          }
          len := if sndbuf == 0 || queueFull then 1 else len / 2;
          again := len > 1;
        }
      }
      length := if err == ErrOk then len else 0;
    }
  }
}
