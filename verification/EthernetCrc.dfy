/**
 * ethcrc of src/utility/ethernetif.cpp, a bit-by-bit CRC with a 32-bit register, and what makes
 * it the check sequence of section 3.2.9 of IEEE 802.3: it is affine, it leaves one residue
 * behind every message, and it finds every burst of up to 32 wrong bits.
 */
module EthernetCrc {
  import opened Prelude

  const ALL_ONES: bv32 := 0xFFFF_FFFF
  const POLYNOMIAL: bv32 := 0x04C1_1DB7

  type Octet = bv8

  /** `(crc >> 31) & 1` */
  predicate Top(crc: bv32) {
    crc & 0x8000_0000 != 0
  }

  function Left(crc: bv32): (r: bv32) {
    crc << 1
  }

  /** The sum of two registers over GF(2). */
  function Plus(x: bv32, y: bv32): (r: bv32) {
    x ^ y
  }

  function Not(x: bv32): (r: bv32) {
    !x
  }

  /** The feedback of the register. */
  function Fed(crc: bv32, back: bool): (r: bv32) {
    if back then Plus(crc, POLYNOMIAL) else crc
  }

  /** What the register becomes on one bit of the message. */
  function Shift(crc: bv32, bit: bool): (r: bv32) {
    Fed(Left(crc), Top(crc) != bit)
  }

  function ShiftBits(crc: bv32, bits: seq<bool>): (r: bv32)
    decreases |bits|
  {
    if bits == [] then crc else Shift(ShiftBits(crc, bits[..|bits| - 1]), bits[|bits| - 1])
  }

  /** `(b >> j) & 1` */
  predicate Bit(b: Octet, j: nat)
    requires j < 8
  {
    (b >> j) & 1 == 1
  }

  /** The bits of an octet in the order in which they are sent. */
  function OctetBits(b: Octet): (r: seq<bool>)
    ensures |r| == 8 && forall j :: 0 <= j < 8 ==> r[j] == Bit(b, j)
  {
    seq(8, j requires 0 <= j < 8 => Bit(b, j))
  }

  function MessageBits(data: seq<Octet>): (r: seq<bool>)
    ensures |r| == 8 * |data|
    decreases |data|
  {
    if data == [] then [] else MessageBits(data[..|data| - 1]) + OctetBits(data[|data| - 1])
  }

  /** The register after a whole message. */
  function Register(data: seq<Octet>): (r: bv32) {
    ShiftBits(ALL_ONES, MessageBits(data))
  }

  function Crc(data: seq<Octet>): (r: bv32) {
    Not(Register(data))
  }

  lemma {:induction false} ShiftMore(crc: bv32, a: seq<bool>, b: seq<bool>)
    ensures ShiftBits(crc, a + b) == ShiftBits(ShiftBits(crc, a), b)
    decreases |b|
  {
    hide Shift;
    if b == [] {
      assert a + b == a;
    } else {
      assert (a + b)[..|a + b| - 1] == a + b[..|b| - 1];
      ShiftMore(crc, a, b[..|b| - 1]);
    }
  }

  /** The register takes the first bit first. */
  lemma ShiftFirst(crc: bv32, bits: seq<bool>)
    requires bits != []
    ensures ShiftBits(crc, bits) == ShiftBits(Shift(crc, bits[0]), bits[1..])
  {
    hide Shift;
    assert bits == [bits[0]] + bits[1..];
    ShiftMore(crc, [bits[0]], bits[1..]);
    assert [bits[0]][..0] == [];
    assert ShiftBits(crc, [bits[0]]) == Shift(ShiftBits(crc, []), bits[0]);
  }

  lemma RegisterNext(data: seq<Octet>, i: nat)
    requires i < |data|
    ensures Register(data[..i + 1]) == ShiftBits(Register(data[..i]), OctetBits(data[i]))
  {
    assert data[..i + 1][..i] == data[..i];
    ShiftMore(ALL_ONES, MessageBits(data[..i]), OctetBits(data[i]));
  }

  /** ethcrc */
  method EthCrc(data: seq<Octet>, length: nat) returns (crc: bv32)
    requires length <= |data|
    ensures crc == Crc(data[..length])
  {
    hide Top, Left, Plus, Bit, MessageBits;
    NothingIn(data);
    crc := ALL_ONES;
    for i := 0 to length
      invariant crc == Register(data[..i])
    {
      ghost var before, bits := crc, OctetBits(data[i]);
      for j := 0 to 8
        invariant crc == ShiftBits(before, bits[..j])
      {
        assert bits[..j + 1][..j] == bits[..j];
        if Top(crc) != Bit(data[i], j) {
          crc := Plus(Left(crc), POLYNOMIAL);
        } else {
          crc := Left(crc);
        }
      }
      assert bits[..8] == bits;
      RegisterNext(data, i);
    }
    crc := Not(crc);
  }

  lemma NothingIn(data: seq<Octet>)
    ensures Register(data[..0]) == ALL_ONES
  {
  }

  /** The sum of two bit strings over GF(2). */
  function Sum(a: seq<bool>, b: seq<bool>): (r: seq<bool>)
    requires |a| == |b|
    ensures |r| == |a| && forall k :: 0 <= k < |r| ==> r[k] == (a[k] != b[k])
  {
    seq(|a|, k requires 0 <= k < |a| => a[k] != b[k])
  }

  function SumAll(a: seq<Octet>, b: seq<Octet>): (r: seq<Octet>)
    requires |a| == |b|
    ensures |r| == |a| && forall k :: 0 <= k < |r| ==> r[k] == a[k] ^ b[k]
  {
    seq(|a|, k requires 0 <= k < |a| => a[k] ^ b[k])
  }

  lemma LeftSum(x: bv32, y: bv32)
    ensures Left(Plus(x, y)) == Plus(Left(x), Left(y))
  {
  }

  lemma TopSum(x: bv32, y: bv32)
    ensures Top(Plus(x, y)) == (Top(x) != Top(y))
  {
  }

  lemma PlusAssociative(x: bv32, y: bv32, z: bv32)
    ensures Plus(Plus(x, y), z) == Plus(x, Plus(y, z))
  {
  }

  lemma PlusCommutes(x: bv32, y: bv32)
    ensures Plus(x, y) == Plus(y, x)
  {
  }

  lemma PlusSelf(x: bv32)
    ensures Plus(x, x) == 0 && Plus(x, 0) == x
  {
  }

  lemma Cancels(x: bv32, y: bv32, p: bv32)
    ensures Plus(Plus(x, p), y) == Plus(Plus(x, y), p) == Plus(x, Plus(y, p))
    ensures Plus(Plus(x, p), Plus(y, p)) == Plus(x, y)
  {
    hide Plus;
    PlusAssociative(x, p, y);
    PlusCommutes(p, y);
    PlusAssociative(x, y, p);
    PlusAssociative(Plus(x, p), y, p);
    PlusAssociative(Plus(x, y), p, p);
    PlusSelf(p);
    PlusSelf(Plus(x, y));
  }

  lemma FedSum(x: bv32, y: bv32, s: bool, t: bool)
    ensures Fed(Plus(x, y), s != t) == Plus(Fed(x, s), Fed(y, t))
  {
    hide Plus;
    Cancels(x, y, POLYNOMIAL);
  }

  /** One shift is linear over GF(2). */
  lemma ShiftLinear(x: bv32, y: bv32, p: bool, q: bool)
    ensures Shift(Plus(x, y), p != q) == Plus(Shift(x, p), Shift(y, q))
  {
    hide Top, Left, Fed, Plus;
    LeftSum(x, y);
    TopSum(x, y);
    FedSum(Left(x), Left(y), Top(x) != p, Top(y) != q);
  }

  lemma {:induction false} BitsLinear(x: bv32, y: bv32, a: seq<bool>, b: seq<bool>)
    requires |a| == |b|
    ensures ShiftBits(Plus(x, y), Sum(a, b)) == Plus(ShiftBits(x, a), ShiftBits(y, b))
    decreases |a|
  {
    hide Shift, Plus;
    if a == [] {
      assert Sum(a, b) == [];
    } else {
      var n := |a| - 1;
      BitsLinear(x, y, a[..n], b[..n]);
      assert Sum(a, b)[..n] == Sum(a[..n], b[..n]);
      ShiftLinear(ShiftBits(x, a[..n]), ShiftBits(y, b[..n]), a[n], b[n]);
    }
  }

  lemma BitSum(x: Octet, y: Octet, j: nat)
    requires j < 8
    ensures Bit(x ^ y, j) == (Bit(x, j) != Bit(y, j))
  {
    LowSum(x >> j, y >> j);
    ShiftedSum(x, y, j);
  }

  lemma ShiftedSum(x: Octet, y: Octet, j: nat)
    requires j < 8
    ensures (x ^ y) >> j == (x >> j) ^ (y >> j)
  {
  }

  lemma LowSum(x: Octet, y: Octet)
    ensures ((x ^ y) & 1 == 1) == ((x & 1 == 1) != (y & 1 == 1))
  {
  }

  lemma {:induction false} MessageSum(a: seq<Octet>, b: seq<Octet>)
    requires |a| == |b|
    ensures MessageBits(SumAll(a, b)) == Sum(MessageBits(a), MessageBits(b))
    decreases |a|
  {
    hide OctetBits;
    if a != [] {
      var n := |a| - 1;
      MessageSum(a[..n], b[..n]);
      assert SumAll(a, b)[..n] == SumAll(a[..n], b[..n]);
      OctetSum(a[n], b[n]);
      SumOfParts(MessageBits(a[..n]), MessageBits(b[..n]), OctetBits(a[n]), OctetBits(b[n]));
    }
  }

  lemma OctetSum(x: Octet, y: Octet)
    ensures OctetBits(x ^ y) == Sum(OctetBits(x), OctetBits(y))
  {
    hide Bit;
    forall j | 0 <= j < 8 ensures Bit(x ^ y, j) == (Bit(x, j) != Bit(y, j)) {
      BitSum(x, y, j);
    }
  }

  lemma SumOfParts(a: seq<bool>, b: seq<bool>, c: seq<bool>, e: seq<bool>)
    requires |a| == |b| && |c| == |e|
    ensures Sum(a + c, b + e) == Sum(a, b) + Sum(c, e)
  {
  }

  /** The register after the sum of three messages of one length is the sum of the registers. */
  lemma RegisterAffine(a: seq<Octet>, b: seq<Octet>, c: seq<Octet>)
    requires |a| == |b| == |c|
    ensures Register(SumAll(SumAll(a, b), c)) == Plus(Plus(Register(a), Register(b)), Register(c))
  {
    hide MessageBits, ShiftBits, Plus, Not;
    MessageSum(a, b);
    MessageSum(SumAll(a, b), c);
    BitsLinear(ALL_ONES, ALL_ONES, MessageBits(a), MessageBits(b));
    BitsLinear(Plus(ALL_ONES, ALL_ONES), ALL_ONES, MessageBits(SumAll(a, b)), MessageBits(c));
    NotSum(0, 0, 0);
  }

  /** The check sequence is affine over GF(2), as that of section 3.2.9 of IEEE 802.3: the CRC
      of the sum of three messages of one length is the sum of their CRCs. */
  lemma CrcAffine(a: seq<Octet>, b: seq<Octet>, c: seq<Octet>)
    requires |a| == |b| == |c|
    ensures Crc(SumAll(SumAll(a, b), c)) == Plus(Plus(Crc(a), Crc(b)), Crc(c))
  {
    hide Register, Plus, Not;
    RegisterAffine(a, b, c);
    NotSum(Register(a), Register(b), Register(c));
  }

  lemma NotPlus(x: bv32)
    ensures Not(x) == Plus(x, ALL_ONES)
  {
  }

  lemma NotSum(x: bv32, y: bv32, z: bv32)
    ensures Not(Plus(Plus(x, y), z)) == Plus(Plus(Not(x), Not(y)), Not(z))
    ensures Plus(Plus(ALL_ONES, ALL_ONES), ALL_ONES) == ALL_ONES
  {
    NotPlus(x);
    NotPlus(y);
    NotPlus(z);
    NotPlus(Plus(Plus(x, y), z));
    hide Plus, Not;
    Cancels(x, y, ALL_ONES);
    PlusAssociative(Plus(x, y), z, ALL_ONES);
    PlusSelf(ALL_ONES);
    PlusCommutes(0, ALL_ONES);
    PlusSelf(ALL_ONES);
  }

  /** The first `n` bits of a word, bit 31 first. */
  function WordBits(w: bv32, n: nat): (r: seq<bool>)
    ensures |r| == n
    decreases n
  {
    if n == 0 then [] else [Top(w)] + WordBits(Left(w), n - 1)
  }

  function Zeros(n: nat): (r: seq<bool>) {
    seq(n, _ => false)
  }

  /** A word shifted left `n` times. */
  function Shifted(w: bv32, n: nat): (r: bv32)
    decreases n
  {
    if n == 0 then w else Shifted(Left(w), n - 1)
  }

  lemma {:induction false} ShiftedMore(w: bv32, m: nat, n: nat)
    ensures Shifted(w, m + n) == Shifted(Shifted(w, m), n)
    decreases m
  {
    hide Left;
    if m > 0 {
      ShiftedMore(Left(w), m - 1, n);
    }
  }

  lemma {:induction false} ShiftedZero(n: nat)
    ensures Shifted(0, n) == 0
    decreases n
  {
    if n > 0 {
      assert Left(0) == 0;
      ShiftedZero(n - 1);
    }
  }

  lemma EightTimes(w: bv32)
    ensures Shifted(w, 8) == w << 8
  {
    assert Shifted(w, 8) == Left(Left(Left(Left(Left(Left(Left(Left(w)))))))) by {
      hide Left;
      assert Shifted(w, 8) == Shifted(Left(Left(Left(Left(w)))), 4);
    }
    hide Shifted;
  }

  lemma SevenTimes(w: bv32)
    ensures Shifted(w, 7) == w << 7
  {
    assert Shifted(w, 7) == Left(Left(Left(Left(Left(Left(Left(w))))))) by {
      hide Left;
      assert Shifted(w, 7) == Shifted(Left(Left(Left(Left(w)))), 3);
    }
    hide Shifted;
  }

  /** After 32 shifts nothing is left, and 31 leave the lowest bit. */
  lemma ShiftedOut(w: bv32)
    ensures Shifted(w, 32) == 0
    ensures Shifted(w, 31) == 0 ==> w & 1 == 0
  {
    hide Left, Shifted;
    ShiftedMore(w, 8, 8);
    ShiftedMore(w, 16, 8);
    ShiftedMore(w, 24, 8);
    EightTimes(w);
    EightTimes(w << 8);
    EightTimes(w << 16);
    EightTimes(w << 24);
    ShiftedMore(w, 24, 7);
    SevenTimes(w << 24);
    Wide(w);
  }

  lemma Wide(w: bv32)
    ensures (w << 8) << 8 == w << 16 && (w << 16) << 8 == w << 24 && (w << 24) << 8 == 0
    ensures (w << 24) << 7 == 0 ==> w & 1 == 0
  {
  }

  /** Bits that were shifted in zeros stay so. */
  lemma ShiftedAway(w: bv32, n: nat)
    requires n <= 31 && Shifted(w, n) == 0
    ensures w & 1 == 0
  {
    hide Left, Shifted;
    ShiftedMore(w, n, 31 - n);
    ShiftedZero(31 - n);
    ShiftedOut(w);
  }

  /** The register is told apart by what comes next. */
  lemma ShiftInjective(x: bv32, y: bv32, p: bool, q: bool)
    requires Shift(x, p) & 1 == Shift(y, q) & 1
    ensures (Top(x) != p) == (Top(y) != q)
    ensures Plus(Shift(x, p), Shift(y, q)) == Left(Plus(x, y))
  {
    LowBit(x, Top(x) != p);
    LowBit(y, Top(y) != q);
    LeftSum(x, y);
    hide Top, Left, Plus;
    Cancels(Left(x), Left(y), POLYNOMIAL);
  }

  lemma LowBit(x: bv32, back: bool)
    ensures Fed(Left(x), back) & 1 == if back then 1 else 0
  {
  }

  lemma SumZero(x: bv32, y: bv32)
    ensures Plus(x, y) == 0 <==> x == y
    ensures Plus(x, y) & 1 == 0 <==> x & 1 == y & 1
  {
  }

  /** No 32 bits or fewer are taken for others: registers that agree after `n` bits differed at
      most in their top `n` bits, and registers that agreed before have taken the same bits. */
  lemma {:induction false} SameBits(x: bv32, y: bv32, a: seq<bool>, b: seq<bool>)
    requires |a| == |b| <= 32 && ShiftBits(x, a) == ShiftBits(y, b)
    ensures Shifted(Plus(x, y), |a|) == 0
    ensures x == y ==> a == b
    decreases |a|
  {
    hide Shift, Plus, Top, Left;
    SumZero(x, y);
    if a != [] {
      ShiftFirst(x, a);
      ShiftFirst(y, b);
      var p, q := Shift(x, a[0]), Shift(y, b[0]);
      SameBits(p, q, a[1..], b[1..]);
      SumZero(p, q);
      ShiftedAway(Plus(p, q), |a| - 1);
      ShiftInjective(x, y, a[0], b[0]);
      if x == y {
        SameShift(x, a[0], b[0]);
        assert a == [a[0]] + a[1..] && b == [b[0]] + b[1..];
      }
    }
  }

  lemma SameShift(x: bv32, p: bool, q: bool)
    requires (Top(x) != p) == (Top(x) != q)
    ensures p == q
  {
  }

  /** A word that is shifted in is the same as one that is in the register already. */
  lemma {:induction false} MixedIn(crc: bv32, w: bv32, n: nat)
    ensures Plus(ShiftBits(crc, WordBits(w, n)), Shifted(w, n)) == ShiftBits(Plus(crc, w), Zeros(n))
    decreases n
  {
    hide Shift, Plus, Top, Left;
    if n > 0 {
      ShiftFirst(crc, WordBits(w, n));
      ShiftFirst(Plus(crc, w), Zeros(n));
      assert Zeros(n)[1..] == Zeros(n - 1);
      assert WordBits(w, n)[1..] == WordBits(Left(w), n - 1);
      MixedShift(crc, w);
      MixedIn(Shift(crc, Top(w)), Left(w), n - 1);
    }
  }

  lemma MixedShift(crc: bv32, w: bv32)
    ensures Plus(Shift(crc, Top(w)), Left(w)) == Shift(Plus(crc, w), false)
  {
    LeftSum(crc, w);
    TopSum(crc, w);
    hide Plus, Left, Top;
    Cancels(Left(crc), Left(w), POLYNOMIAL);
  }

  /** The register holds one and the same number after any message that is followed by its own
      CRC, the highest bit first: the residue of this CRC in section 3.2.9 of IEEE 802.3. */
  lemma Residue(data: seq<Octet>)
    ensures ShiftBits(Register(data), WordBits(Crc(data), 32)) == 0xC704_DD7B
  {
    hide Plus, Not, ShiftBits, WordBits, Register;
    var crc, w := Register(data), Crc(data);
    MixedIn(crc, w, 32);
    ShiftedOut(w);
    PlusSelf(ShiftBits(crc, WordBits(w, 32)));
    NotPlus(crc);
    PlusAssociative(crc, crc, ALL_ONES);
    PlusSelf(crc);
    PlusCommutes(0, ALL_ONES);
    PlusSelf(ALL_ONES);
    ZerosIntoOnes();
  }

  lemma ZerosMore(crc: bv32, m: nat, n: nat)
    ensures ShiftBits(crc, Zeros(m + n)) == ShiftBits(ShiftBits(crc, Zeros(m)), Zeros(n))
  {
    assert Zeros(m + n) == Zeros(m) + Zeros(n);
    ShiftMore(crc, Zeros(m), Zeros(n));
  }

  lemma ZerosIntoOnes()
    ensures ShiftBits(ALL_ONES, Zeros(32)) == 0xC704_DD7B
  {
    ZerosMore(ALL_ONES, 8, 8);
    ZerosMore(ALL_ONES, 16, 8);
    ZerosMore(ALL_ONES, 24, 8);
    EightBits(0xFFFF_FFFF, Zeros(8));
    EightBits(0x4E08_BFB4, Zeros(8));
    EightBits(0x00B7_647D, Zeros(8));
    EightBits(0xB764_7D00, Zeros(8));
    hide ShiftBits;
  }

  /** Eight shifts written out. */
  function Eight(crc: bv32, b: seq<bool>): (r: bv32)
    requires |b| == 8
  {
    Shift(Shift(Shift(Shift(Shift(Shift(Shift(Shift(crc, b[0]), b[1]), b[2]), b[3]), b[4]), b[5]), b[6]), b[7])
  }

  lemma EightBits(crc: bv32, b: seq<bool>)
    requires |b| == 8
    ensures ShiftBits(crc, b) == Eight(crc, b)
  {
    hide Shift;
    ShiftFirst(crc, b);
    var c := Shift(crc, b[0]);
    ShiftFirst(c, b[1..]);
    c := Shift(c, b[1]);
    ShiftFirst(c, b[2..]);
    c := Shift(c, b[2]);
    ShiftFirst(c, b[3..]);
    c := Shift(c, b[3]);
    ShiftFirst(c, b[4..]);
    c := Shift(c, b[4]);
    ShiftFirst(c, b[5..]);
    c := Shift(c, b[5]);
    ShiftFirst(c, b[6..]);
    c := Shift(c, b[6]);
    ShiftFirst(c, b[7..]);
  }

  lemma Undone(x: bv32, y: bv32, bit: bool)
    requires Shift(x, bit) == Shift(y, bit)
    ensures x == y
  {
    ShiftInjective(x, y, bit, bit);
    SumZero(Shift(x, bit), Shift(y, bit));
    hide Shift;
    TopAndRest(x, y);
  }

  lemma TopAndRest(x: bv32, y: bv32)
    requires Top(x) == Top(y) && Left(Plus(x, y)) == 0
    ensures x == y
  {
  }

  lemma {:induction false} SameBefore(x: bv32, y: bv32, bits: seq<bool>)
    requires ShiftBits(x, bits) == ShiftBits(y, bits)
    ensures x == y
    decreases |bits|
  {
    hide Shift;
    if bits != [] {
      ShiftFirst(x, bits);
      ShiftFirst(y, bits);
      SameBefore(Shift(x, bits[0]), Shift(y, bits[0]), bits[1..]);
      Undone(x, y, bits[0]);
    }
  }

  lemma SameOctet(x: Octet, y: Octet)
    requires OctetBits(x) == OctetBits(y)
    ensures x == y
  {
    forall j | 0 <= j < 8 ensures Bit(x, j) == Bit(y, j) {
      assert OctetBits(x)[j] == OctetBits(y)[j];
    }
    assert Bit(x, 0) == Bit(y, 0) && Bit(x, 1) == Bit(y, 1) && Bit(x, 2) == Bit(y, 2) && Bit(x, 3) == Bit(y, 3);
    assert Bit(x, 4) == Bit(y, 4) && Bit(x, 5) == Bit(y, 5) && Bit(x, 6) == Bit(y, 6) && Bit(x, 7) == Bit(y, 7);
  }

  lemma {:induction false} SameMessage(a: seq<Octet>, b: seq<Octet>)
    requires |a| == |b| && MessageBits(a) == MessageBits(b)
    ensures a == b
    decreases |a|
  {
    hide OctetBits;
    if a != [] {
      var n := |a| - 1;
      assert MessageBits(a)[..8 * n] == MessageBits(a[..n]) && MessageBits(a)[8 * n..] == OctetBits(a[n]);
      assert MessageBits(b)[..8 * n] == MessageBits(b[..n]) && MessageBits(b)[8 * n..] == OctetBits(b[n]);
      SameMessage(a[..n], b[..n]);
      SameOctet(a[n], b[n]);
      assert a == a[..n] + [a[n]] && b == b[..n] + [b[n]];
    }
  }

  /** Two different messages of one length that agree outside of 32 bits in a row, wherever these
      are, have different CRCs. */
  lemma BurstFound(a: seq<Octet>, b: seq<Octet>, i: nat)
    requires |a| == |b| && a != b
    requires forall k :: 0 <= k < 8 * |a| && !(i <= k < i + 32) ==> MessageBits(a)[k] == MessageBits(b)[k]
    ensures Crc(a) != Crc(b)
  {
    hide MessageBits, Crc, Register;
    var s, t := MessageBits(a), MessageBits(b);
    var lo, hi := Min(i, |s|), Min(i + 32, |s|);
    assert s[..lo] == t[..lo] && s[hi..] == t[hi..];
    if Crc(a) == Crc(b) {
      SameRegister(a, b);
      BurstInBits(s, t, lo, hi);
      SameMessage(a, b);
    }
  }

  lemma BurstInBits(s: seq<bool>, t: seq<bool>, lo: nat, hi: nat)
    requires lo <= hi <= |s| == |t| && hi - lo <= 32 && s[..lo] == t[..lo] && s[hi..] == t[hi..]
    requires ShiftBits(ALL_ONES, s) == ShiftBits(ALL_ONES, t)
    ensures s == t
  {
    hide ShiftBits;
    ThreeParts(s, lo, hi);
    ThreeParts(t, lo, hi);
    var c := ShiftBits(ALL_ONES, s[..lo]);
    SameBefore(ShiftBits(c, s[lo..hi]), ShiftBits(c, t[lo..hi]), s[hi..]);
    SameBits(c, c, s[lo..hi], t[lo..hi]);
  }

  lemma SameRegister(a: seq<Octet>, b: seq<Octet>)
    requires Crc(a) == Crc(b)
    ensures ShiftBits(ALL_ONES, MessageBits(a)) == ShiftBits(ALL_ONES, MessageBits(b))
  {
    hide ShiftBits, MessageBits, Not;
    NotBack(Register(a), Register(b));
  }

  lemma NotBack(x: bv32, y: bv32)
    requires Not(x) == Not(y)
    ensures x == y
  {
  }

  lemma Thirds(s: seq<bool>, lo: nat, hi: nat)
    requires lo <= hi <= |s|
    ensures s == s[..lo] + s[lo..hi] + s[hi..]
  {
  }

  lemma ThreeParts(s: seq<bool>, lo: nat, hi: nat)
    requires lo <= hi <= |s|
    ensures s == s[..lo] + s[lo..hi] + s[hi..]
    ensures ShiftBits(ALL_ONES, s) == ShiftBits(ShiftBits(ShiftBits(ALL_ONES, s[..lo]), s[lo..hi]), s[hi..])
  {
    hide *;
    Thirds(s, lo, hi);
    ShiftMore(ALL_ONES, s[..lo] + s[lo..hi], s[hi..]);
    ShiftMore(ALL_ONES, s[..lo], s[lo..hi]);
  }

  /** A wrong octet, or a wrong bit in it, is always found. */
  lemma WrongOctetFound(a: seq<Octet>, k: nat, x: Octet)
    requires k < |a| && a[k] != x
    ensures Crc(a) != Crc(a[k := x])
  {
    var b := a[k := x];
    forall j | 0 <= j < 8 * |a| && !(8 * k <= j < 8 * k + 32) ensures MessageBits(a)[j] == MessageBits(b)[j] {
      OutsideOctet(a, k, x, j);
    }
    hide MessageBits, Crc;
    assert b[k] == x;
    BurstFound(a, b, 8 * k);
  }

  lemma {:induction false} OutsideOctet(a: seq<Octet>, k: nat, x: Octet, j: nat)
    requires k < |a| && j < 8 * |a| && !(8 * k <= j < 8 * k + 8)
    ensures MessageBits(a)[j] == MessageBits(a[k := x])[j]
    decreases |a|
  {
    hide OctetBits;
    var n, b := |a| - 1, a[k := x];
    if k == n {
      assert a[..n] == b[..n];
    } else {
      assert b[..n] == a[..n][k := x];
      if j < 8 * n {
        OutsideOctet(a[..n], k, x, j);
      }
    }
  }
}
