/**
 * The multicast hash filter of src/utility/ethernetif.cpp: the top bits of an address's CRC select
 * a bit of a 64-bit table, held in two registers that are their 32 bits each, lowest first.
 */
module HashFilter {
  import opened EthernetCrc
  import opened Prelude

  /** The number of top bits of the CRC that select a bit of the table, which is also taken for
      the number of octets of an address. */
  const HASH_BITS := 6

  type Bits32 = w: seq<bool> | |w| == 32 witness seq(32, _ => false)

  /** `(crc >> 26) & 0x3F` */
  function TopBits(crc: bv32): (h: nat)
    ensures h < 64
  {
    var top := (crc >> 26) & 0x3F;
    top as nat
  }

  /** The bit of the 64-bit table that an address selects. */
  function Hash(mac: seq<Octet>): (h: nat)
    requires |mac| >= HASH_BITS
    ensures h < 64
  {
    TopBits(Crc(mac[..HASH_BITS]))
  }

  lemma OctetIn(data: seq<Octet>, b: Octet)
    ensures Register(data + [b]) == Eight(Register(data), OctetBits(b))
  {
    var all := data + [b];
    assert all[..|data| + 1] == all && all[..|data|] == data;
    hide Register, Eight;
    RegisterNext(all, |data|);
    EightBits(Register(data), OctetBits(b));
  }

  /** The register after an address. */
  lemma RegisterOfSix(a: Octet, b: Octet, c: Octet, d: Octet, e: Octet, f: Octet)
    ensures Register([a, b, c, d, e, f]) ==
            Eight(Eight(Eight(Eight(Eight(Eight(0xFFFF_FFFF, OctetBits(a)), OctetBits(b)), OctetBits(c)),
                              OctetBits(d)), OctetBits(e)), OctetBits(f))
  {
    assert Register([]) == 0xFFFF_FFFF;
    hide *;
    OctetIn([], a);
    assert [] + [a] == [a];
    OctetIn([a], b);
    assert [a] + [b] == [a, b];
    OctetIn([a, b], c);
    assert [a, b] + [c] == [a, b, c];
    OctetIn([a, b, c], d);
    assert [a, b, c] + [d] == [a, b, c, d];
    OctetIn([a, b, c, d], e);
    assert [a, b, c, d] + [e] == [a, b, c, d, e];
    OctetIn([a, b, c, d, e], f);
    assert [a, b, c, d, e] + [f] == [a, b, c, d, e, f];
  }

  lemma KnownOctets()
    ensures OctetBits(0x00) == [false, false, false, false, false, false, false, false]
    ensures OctetBits(0x01) == [true, false, false, false, false, false, false, false]
    ensures OctetBits(0x5E) == [false, true, true, true, true, false, true, false]
    ensures OctetBits(0xFC) == [false, false, true, true, true, true, true, true]
  {
  }

  lemma KnownSteps()
    ensures Eight(0xFFFF_FFFF, OctetBits(0x01)) == 0x2704_5F5A
    ensures Eight(0x2704_5F5A, OctetBits(0x00)) == 0x823B_BCE5
    ensures Eight(0x823B_BCE5, OctetBits(0x5E)) == 0x940C_F5B1
    ensures Eight(0x940C_F5B1, OctetBits(0x00)) == 0x3AEC_FC42
    ensures Eight(0x3AEC_FC42, OctetBits(0x00)) == 0x1744_F946
    ensures Eight(0x1744_F946, OctetBits(0x01)) == 0x7FA3_2D9B
    ensures Eight(0x1744_F946, OctetBits(0xFC)) == 0xFAD2_1D58
  {
    KnownOctets();
    hide OctetBits;
  }

  /** The group of all hosts, 01:00:5E:00:00:01, and that of LLMNR, 01:00:5E:00:00:FC. */
  lemma KnownHashes()
    ensures Crc([0x01, 0x00, 0x5E, 0x00, 0x00, 0x01]) == 0x805C_D264
    ensures Hash([0x01, 0x00, 0x5E, 0x00, 0x00, 0x01]) == 32
    ensures Crc([0x01, 0x00, 0x5E, 0x00, 0x00, 0xFC]) == 0x052D_E2A7
    ensures Hash([0x01, 0x00, 0x5E, 0x00, 0x00, 0xFC]) == 1
  {
    hide Register, TopBits, Not, Eight;
    KnownSteps();
    RegisterOfSix(0x01, 0x00, 0x5E, 0x00, 0x00, 0x01);
    RegisterOfSix(0x01, 0x00, 0x5E, 0x00, 0x00, 0xFC);
    TopOfKnown();
    WholeAddress([0x01, 0x00, 0x5E, 0x00, 0x00, 0x01]);
    WholeAddress([0x01, 0x00, 0x5E, 0x00, 0x00, 0xFC]);
  }

  lemma WholeAddress(mac: seq<Octet>)
    requires |mac| == HASH_BITS
    ensures Hash(mac) == TopBits(Crc(mac))
  {
    assert mac[..HASH_BITS] == mac;
  }

  lemma TopOfKnown()
    ensures Not(0x7FA3_2D9B) == 0x805C_D264 && TopBits(0x805C_D264) == 32
    ensures Not(0xFAD2_1D58) == 0x052D_E2A7 && TopBits(0x052D_E2A7) == 1
  {
  }

  class Filter {
    /** ETH_HashTableHigh and ETH_HashTableLow, which the registers repeat. */
    var high: Bits32
    var low: Bits32

    constructor (high: Bits32, low: Bits32)
      ensures this.high == high && this.low == low
    {
      this.high, this.low := high, low;
    }

    /** The hash values that pass. */
    ghost function Table(): (s: set<nat>)
      reads this
    {
      set h: nat | h < 64 && (if h > 31 then high[h - 32] else low[h])
    }

    /** register_multicast_address: the filter gains the hash of the address and nothing else. */
    method RegisterAddress(mac: seq<Octet>)
      requires |mac| >= HASH_BITS
      modifies this
      ensures Table() == old(Table()) + {Hash(mac)}
    {
      hide Crc, TopBits;
      var crc := EthCrc(mac, HASH_BITS);
      var hash := TopBits(crc);
      if hash > 31 {
        high := high[hash - 32 := true];
      } else {
        low := low[hash := true];
      }
    }

    /** After any registrations the filter passes what it passed before and the registered
        hashes, so every registered address. */
    method RegisterAll(macs: seq<seq<Octet>>)
      requires forall k :: 0 <= k < |macs| ==> |macs[k]| >= HASH_BITS
      modifies this
      ensures Table() == old(Table()) + set k | 0 <= k < |macs| :: Hash(macs[k])
      ensures forall k :: 0 <= k < |macs| ==> Hash(macs[k]) in Table()
    {
      hide Hash;
      for i := 0 to |macs|
        invariant Table() == old(Table()) + set k | 0 <= k < i :: Hash(macs[k])
      {
        RegisterAddress(macs[i]);
      }
    }
  }

  /** A filter for the group of all hosts: bit 0 of the high register, and no other. */
  method AllHostsOnly(zeros: Bits32) returns (f: Filter)
    requires forall k :: 0 <= k < 32 ==> !zeros[k]
    ensures fresh(f) && f.high[0] && f.low == zeros
    ensures forall k :: 1 <= k < 32 ==> !f.high[k]
  {
    hide Hash;
    f := new Filter(zeros, zeros);
    assert f.Table() == {};
    KnownHashes();
    f.RegisterAddress([0x01, 0x00, 0x5E, 0x00, 0x00, 0x01]);
    assert 32 in f.Table();
    forall k | 0 <= k < 32 ensures !f.low[k] && (k > 0 ==> !f.high[k]) {
      assert k !in f.Table() && (k > 0 ==> k + 32 !in f.Table());
    }
  }
}
