/** Machine types and small datatypes shared by every component. */
module Prelude {

  datatype Option<+T> = None | Some(value: T)

  const TWO_16: int := 0x1_0000
  const TWO_32: int := 0x1_0000_0000

  type byte = b: int | 0 <= b < 0x100
  type u16 = x: int | 0 <= x < 0x1_0000
  type u32 = x: int | 0 <= x < 0x1_0000_0000

  /** The conversion `(u16_t)x`. */
  function ToU16(x: int): u16 {
    x % TWO_16
  }

  /** Unsigned 32-bit addition, with wrap-around. */
  function Add32(a: u32, b: u32): u32 {
    if a + b < TWO_32 then a + b else a + b - TWO_32
  }

  /** Unsigned 32-bit subtraction, with wrap-around. */
  function Sub32(a: u32, b: u32): u32 {
    if a >= b then a - b else a - b + TWO_32
  }

  /** Unsigned 16-bit addition, with wrap-around. */
  function Add16(a: u16, b: u16): u16 {
    if a + b < TWO_16 then a + b else a + b - TWO_16
  }

  function Min(a: int, b: int): int {
    if a <= b then a else b
  }

  lemma PrefixOfSlice<T>(s: seq<T>, lo: nat, hi: nat, n: nat)
    requires lo <= hi <= |s| && n <= hi - lo
    ensures s[lo..hi][..n] == s[lo..lo + n]
  {
  }

  lemma PrefixNext<T>(s: seq<T>, i: nat)
    requires i < |s|
    ensures s[..i + 1] == s[..i] + [s[i]]
  {
  }

  lemma SameHead<T>(a: seq<T>, b: seq<T>, tail: seq<T>)
    requires a + tail == b + tail
    ensures a == b
  {
    assert |a| == |b|;
    assert a == (a + tail)[..|a|];
    assert b == (b + tail)[..|b|];
  }

  /** Concatenation of a sequence of sequences. */
  function Flatten<T>(ss: seq<seq<T>>): (r: seq<T>) {
    if ss == [] then [] else ss[0] + Flatten(ss[1..])
  }

  lemma {:induction false} FlattenAppend<T>(ss: seq<seq<T>>, s: seq<T>)
    ensures Flatten(ss + [s]) == Flatten(ss) + s
  {
    if ss == [] {
      assert [s][1..] == [];
    } else {
      assert (ss + [s])[1..] == ss[1..] + [s];
      FlattenAppend(ss[1..], s);
    }
  }

  lemma {:induction false} FlattenPrefix<T>(ss: seq<seq<T>>, n: nat)
    requires n <= |ss|
    ensures Flatten(ss[..n]) <= Flatten(ss)
    decreases n
  {
    if n > 0 {
      assert ss[..n][1..] == ss[1..][..n - 1];
      FlattenPrefix(ss[1..], n - 1);
    }
  }
}
