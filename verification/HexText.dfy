/**
 * The text of a C array as makefsdata.c prints it: file_put_ascii and process_file_data, and
 * a reader that takes the bytes back out of the text.
 */
module HexText {
  import opened Bytes
  import opened Prelude

  const HEX_BYTES_PER_LINE := 16

  function HexDigit(d: nat): (c: byte)
    requires d < 16
  {
    if d < 10 then 0x30 + d else 0x61 + d - 10
  }

  function HexValue(c: byte): (d: Option<nat>)
    ensures d.Some? ==> d.value < 16
  {
    if 0x30 <= c <= 0x39 then Some(c - 0x30) else if 0x61 <= c <= 0x66 then Some(c - 0x61 + 10) else None
  }

  /** `0x%02x,` */
  function Hex(b: byte): (s: seq<byte>)
    ensures |s| == 5
  {
    [0x30, 0x78, HexDigit(b / 16), HexDigit(b % 16), 0x2C]
  }

  /** The line break after the byte with number `count`, counted from zero. */
  function Break(count: nat): (s: seq<byte>) {
    if (count + 1) % HEX_BYTES_PER_LINE == 0 then CRLF else []
  }

  /** The text of `s` when `count` bytes stand before it. */
  function Printed(s: seq<byte>, count: nat): (t: seq<byte>) {
    if s == [] then [] else Hex(s[0]) + Break(count) + Printed(s[1..], count + 1)
  }

  /** A byte is printed as two digits in base 16, the high one first, and every sixteenth byte ends
      a line. */
  lemma HexWritten(b: byte, count: nat)
    ensures var digits := Ascii("0123456789abcdef");
      Hex(b) == Ascii("0x") + [digits[b / 16], digits[b % 16]] + Ascii(",")
    ensures Break(count) == if (count + 1) % 16 == 0 then Ascii("\r\n") else []
  {
    var digits := Ascii("0123456789abcdef");
    forall d: nat | d < 16 ensures HexDigit(d) == digits[d] {
    }
  }

  /** The bytes that an initializer text stands for, if it is one. */
  function Read(t: seq<byte>): (r: Option<seq<byte>>) {
    if t == [] then Some([])
    else if t[0] == 0x0D || t[0] == 0x0A then Read(t[1..])
    else if |t| < 5 || t[0] != 0x30 || t[1] != 0x78 || t[4] != 0x2C then None
    else if HexValue(t[2]) == None || HexValue(t[3]) == None then None
    else Put([16 * HexValue(t[2]).value + HexValue(t[3]).value], Read(t[5..]))
  }

  function Put(s: seq<byte>, r: Option<seq<byte>>): (r': Option<seq<byte>>) {
    if r == None then None else Some(s + r.value)
  }

  lemma ReadBreak(count: nat, t: seq<byte>)
    ensures Read(Break(count) + t) == Read(t)
  {
    if Break(count) == [] {
      assert Break(count) + t == t;
    } else {
      var u := CRLF + t;
      assert u[1..] == [0x0A] + t && u[1..][1..] == t;
    }
  }

  lemma ReadHex(b: byte, t: seq<byte>)
    ensures Read(Hex(b) + t) == Put([b], Read(t))
  {
    var u := Hex(b) + t;
    assert u[5..] == t;
    assert u[2] == HexDigit(b / 16) && u[3] == HexDigit(b % 16);
  }

  /** Reading undoes printing, wherever the lines were broken. */
  lemma {:induction false} ReadPrinted(s: seq<byte>, count: nat, t: seq<byte>)
    ensures Read(Printed(s, count) + t) == Put(s, Read(t))
    decreases |s|
  {
    hide Read, Hex, Break;
    if s == [] {
      assert Printed(s, count) + t == t;
      assert Read(t).Some? ==> [] + Read(t).value == Read(t).value;
    } else {
      var rest := Printed(s[1..], count + 1) + t;
      Joined(Hex(s[0]), Break(count), Printed(s[1..], count + 1), t);
      hide Printed, Put;
      ReadHex(s[0], Break(count) + rest);
      ReadBreak(count, rest);
      ReadPrinted(s[1..], count + 1, t);
      assert [s[0]] + s[1..] == s;
      PutTwice([s[0]], s[1..], Read(t));
    }
  }

  lemma Joined(a: seq<byte>, b: seq<byte>, c: seq<byte>, d: seq<byte>)
    ensures a + b + c + d == a + (b + (c + d))
  {
  }

  lemma PutTwice(a: seq<byte>, b: seq<byte>, r: Option<seq<byte>>)
    ensures Put(a, Put(b, r)) == Put(a + b, r)
  {
    if r.Some? {
      assert a + (b + r.value) == a + b + r.value;
    }
  }

  lemma {:induction false} PrintedMore(s: seq<byte>, b: byte, count: nat)
    ensures Printed(s + [b], count) == Printed(s, count) + Hex(b) + Break(count + |s|)
    decreases |s|
  {
    hide Hex, Break;
    if s == [] {
      assert Printed([b][1..], count + 1) == [];
    } else {
      assert (s + [b])[1..] == s[1..] + [b];
      PrintedMore(s[1..], b, count + 1);
    }
  }

  /** file_put_ascii: prints straight into the file, `i` counts on. */
  method FilePutAscii(file: seq<byte>, ascii: seq<byte>, i: nat) returns (out: seq<byte>, count: nat)
    ensures out == file + Printed(ascii, i) && count == i + |ascii|
  {
    out, count := file, i;
    hide Hex, Break;
    for x := 0 to |ascii|
      invariant out == file + Printed(ascii[..x], i) && count == i + x
    {
      PrintedMore(ascii[..x], ascii[x], i);
      assert ascii[..x + 1] == ascii[..x] + [ascii[x]];
      out := out + Hex(ascii[x]);
      count := count + 1;
      out := out + Break(count - 1);
    }
    assert ascii[..|ascii|] == ascii;
  }

  /** sprintf into the buffer, with its terminating zero. */
  method PutHex(buf: array<byte>, off: nat, b: byte)
    requires off + 5 < buf.Length
    modifies buf
    ensures buf[..off + 5] == old(buf[..off]) + Hex(b)
  {
    var h := Hex(b);
    buf[off], buf[off + 1], buf[off + 2], buf[off + 3], buf[off + 4], buf[off + 5] := h[0], h[1], h[2], h[3], h[4], 0;
  }

  method PutNewline(buf: array<byte>, off: nat)
    requires off + 2 <= buf.Length
    modifies buf
    ensures buf[..off + 2] == old(buf[..off]) + CRLF
  {
    buf[off], buf[off + 1] := 0x0D, 0x0A;
  }

  /** process_file_data: prints through a buffer that is written out when it is nearly full.
      Where that happens makes no difference, and the buffer is never overrun. */
  method ProcessFileData(file: seq<byte>, data: seq<byte>, buf: array<byte>) returns (out: seq<byte>)
    requires buf.Length > 20
    modifies buf
    ensures out == file + Printed(data, 0)
  {
    out := file;
    var off := 0;
    hide Hex, Break, Printed;
    PrintedNone();
    assert out + buf[..0] == file + [];
    for i := 0 to |data|
      invariant off + 20 < buf.Length
      invariant out + buf[..off] == file + Printed(data[..i], 0)
    {
      PrintedMore(data[..i], data[i], 0);
      assert data[..i + 1] == data[..i] + [data[i]];
      ghost var was := buf[..off];
      PutHex(buf, off, data[i]);
      off := off + 5;
      BreakIs(i);
      if (i + 1) % HEX_BYTES_PER_LINE == 0 {
        PutNewline(buf, off);
        off := off + 2;
      } else {
        assert buf[..off] == was + Hex(data[i]) + [];
      }
      Regroup(out, was, Hex(data[i]), Break(i));
      Regroup(file, Printed(data[..i], 0), Hex(data[i]), Break(i));
      if off + 20 >= buf.Length {
        out := out + buf[..off];
        off := 0;
        assert out + buf[..0] == out;
      }
    }
    assert data[..|data|] == data;
    out := out + buf[..off];
  }

  lemma PrintedNone()
    ensures Printed([], 0) == []
  {
  }

  lemma BreakIs(i: nat)
    ensures Break(i) == if (i + 1) % HEX_BYTES_PER_LINE == 0 then CRLF else []
  {
  }

  lemma Regroup(a: seq<byte>, b: seq<byte>, c: seq<byte>, d: seq<byte>)
    ensures a + (b + c + d) == a + b + c + d
  {
  }
}
