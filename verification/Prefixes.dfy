/** Netblocks, the masks for them, and what it means for an address to be in one. */
module Prefixes {
  type Byte = bv8
  type Word = bv32
  const ALL_ONES: Word := 0xffff_ffff

  function Masked(w: Word, mask: Word): Word { w & mask }

  function WordAt(octets: seq<Byte>, k: nat): Word
    requires k + 4 <= |octets|
  {
    (octets[k] as Word << 24) | (octets[k + 1] as Word << 16)
      | (octets[k + 2] as Word << 8) | octets[k + 3] as Word
  }

  datatype Netblock = Netblock(prefix: seq<Byte>, length: nat)

  ghost predicate IsInet4(nb: Netblock) { |nb.prefix| == 4 && nb.length <= 32 }

  ghost predicate IsInet6(nb: Netblock) { |nb.prefix| == 16 && nb.length <= 128 }

  /** Left shift of a 64-bit value. */
  function Shl64(x: bv64, n: nat): bv64 {
    if n == 0 then x else Twice(Shl64(x, n - 1))
  }

  function Twice(x: bv64): bv64 { x << 1 }

  /** Minus a power of two, narrowed to 32 bits. */
  function NegatedPower(n: nat): Word {
    Negation(Shl64(1, n))
  }

  function Negation(x: bv64): Word { ((0 - x) & 0xffff_ffff) as Word }

  /** Mask for an IPv4 netblock. */
  function Mask4(length: nat): Word
    requires length <= 32
  {
    NegatedPower(32 - length)
  }

  /** Mask for the 32 bits of an IPv6 netblock starting at a given bit. */
  function Mask6(index: nat, length: nat): Word {
    if index >= length then 0
    else if index + 32 <= length then ALL_ONES
    else NegatedPower(index + 32 - length)
  }

  /** Whether the word at an offset, once masked, equals a word of the prefix. */
  ghost predicate WordMatches(frame: seq<Byte>, k: nat, mask: Word, prefix: Word)
    requires k + 4 <= |frame|
  {
    Masked(WordAt(frame, k), mask) == prefix
  }

  ghost predicate Matches4(nb: Netblock, frame: seq<Byte>, k: nat)
    requires IsInet4(nb) && k + 4 <= |frame|
  {
    WordMatches(frame, k, Mask4(nb.length), WordAt(nb.prefix, 0))
  }

  ghost predicate Matches6(nb: Netblock, frame: seq<Byte>, k: nat)
    requires IsInet6(nb) && k + 16 <= |frame|
  {
    forall i: nat | i < 4 :: WordMatches(frame, k + i * 4, Mask6(i * 32, nb.length), WordAt(nb.prefix, i * 4))
  }

  lemma {:induction false} ShlNegated(n: nat)
    ensures 0 - Shl64(1, n) == Shl64(0xffff_ffff_ffff_ffff, n)
  {
    if n == 0 {
    } else {
      ShlNegated(n - 1);
      ShlNegatedStep(Shl64(1, n - 1));
    }
  }

  lemma ShlNegatedStep(x: bv64)
    ensures 0 - (x << 1) == (0 - x) << 1
  {
  }

  /** Both kinds of mask have the leading bits of the prefix set, and no others: they
      are all ones shifted left by the number of bits left over. */
  lemma MaskBits(index: nat, length: nat)
    ensures length <= 32 ==> Mask4(length) == (Shl64(0xffff_ffff_ffff_ffff, 32 - length) & 0xffff_ffff) as Word
    ensures Mask6(index, length) == if index >= length then 0 else
                                    if index + 32 <= length then ALL_ONES else Mask4(length - index)
  {
    if length <= 32 {
      ShlNegated(32 - length);
    }
  }

  // ---------------------------------------------------------------------------
  // Membership, bit by bit
  // ---------------------------------------------------------------------------

  /** The value of a bit of an octet, the most significant being bit 0. */
  function Weight(j: nat): Byte
    requires j < 8
  {
    if j == 0 then 0x80 else if j == 1 then 0x40 else if j == 2 then 0x20 else if j == 3 then 0x10
    else if j == 4 then 0x08 else if j == 5 then 0x04 else if j == 6 then 0x02 else 0x01
  }

  predicate Bit(octet: Byte, j: nat)
    requires j < 8
  {
    octet & Weight(j) != 0
  }

  /** A bit of an address, numbered in the order of transmission, where the address starts at a
      given octet. */
  predicate AddressBit(octets: seq<Byte>, k: nat, i: nat)
    requires k + i / 8 < |octets|
  {
    Bit(octets[k + i / 8], i % 8)
  }

  /** Every bit that belongs to the prefix is the same in the address. */
  ghost predicate InBlock(nb: Netblock, frame: seq<Byte>, k: nat)
    requires nb.length <= 8 * |nb.prefix| && k + |nb.prefix| <= |frame|
  {
    forall i: nat | i < nb.length :: AddressBit(frame, k, i) == AddressBit(nb.prefix, 0, i)
  }

  /** No bit is set which does not belong to the prefix. */
  ghost predicate HostBitsZero(nb: Netblock) {
    forall i: nat | nb.length <= i < 8 * |nb.prefix| :: !AddressBit(nb.prefix, 0, i)
  }

  /** How many bits of the octet which starts at a given bit belong to the prefix. */
  function Significant(length: nat, start: nat): (l: nat)
    ensures l <= 8
  {
    if length <= start then 0 else if length >= start + 8 then 8 else length - start
  }

  /** Likewise for one octet, of which a given number of bits belong to the prefix. */
  predicate OctetAgrees(octet: Byte, prefix: Byte, l: nat)
    requires l <= 8
  {
    && (forall j: nat | j < l :: Bit(octet, j) == Bit(prefix, j))
    && (forall j: nat | l <= j < 8 :: !Bit(prefix, j))
  }

  function OctetMask(l: nat): Byte
    requires l <= 8
  {
    if l == 0 then 0 else if l == 1 then 0x80 else if l == 2 then 0xc0 else if l == 3 then 0xe0
    else if l == 4 then 0xf0 else if l == 5 then 0xf8 else if l == 6 then 0xfc else if l == 7 then 0xfe else 0xff
  }

  lemma MaskedBit(octet: Byte, l: nat, j: nat)
    requires l <= 8 && j < 8
    ensures Bit(octet & OctetMask(l), j) == (j < l && Bit(octet, j))
  {
  }

  /** Octets are equal if all their bits are. */
  lemma BitsEqual(a: Byte, b: Byte)
    requires Bit(a, 0) == Bit(b, 0) && Bit(a, 1) == Bit(b, 1) && Bit(a, 2) == Bit(b, 2) && Bit(a, 3) == Bit(b, 3)
    requires Bit(a, 4) == Bit(b, 4) && Bit(a, 5) == Bit(b, 5) && Bit(a, 6) == Bit(b, 6) && Bit(a, 7) == Bit(b, 7)
    ensures a == b
  {
  }

  lemma OctetMeans(octet: Byte, prefix: Byte, l: nat)
    requires l <= 8
    ensures OctetMatches(octet, OctetMask(l), prefix) <==> OctetAgrees(octet, prefix, l)
  {
    MaskedBits(octet, octet & OctetMask(l), l);
    AgreesByBits(octet & OctetMask(l), octet, prefix, l);
    hide OctetAgrees;
  }

  lemma AgreesByBits(m: Byte, octet: Byte, prefix: Byte, l: nat)
    requires l <= 8 && forall j: nat | j < 8 :: Bit(m, j) == (j < l && Bit(octet, j))
    ensures m == prefix <==> OctetAgrees(octet, prefix, l)
  {
    hide Bit;
    if OctetAgrees(octet, prefix, l) {
      assert forall j: nat | j < 8 :: Bit(m, j) == Bit(prefix, j);
      BitsEqual(m, prefix);
    }
  }

  lemma MaskedBits(octet: Byte, m: Byte, l: nat)
    requires l <= 8 && m == octet & OctetMask(l)
    ensures forall j: nat | j < 8 :: Bit(m, j) == (j < l && Bit(octet, j))
  {
    hide Bit, OctetMask;
    forall j: nat | j < 8
      ensures Bit(m, j) == (j < l && Bit(octet, j))
    {
      MaskedBit(octet, l, j);
    }
  }

  function Word4(a: Byte, b: Byte, c: Byte, d: Byte): Word {
    (a as Word << 24) | (b as Word << 16) | (c as Word << 8) | d as Word
  }

  lemma Word4And(a: Byte, b: Byte, c: Byte, d: Byte, ma: Byte, mb: Byte, mc: Byte, md: Byte)
    ensures Word4(a, b, c, d) & Word4(ma, mb, mc, md) == Word4(a & ma, b & mb, c & mc, d & md)
  {
  }

  lemma Word4Injective(a: Byte, b: Byte, c: Byte, d: Byte, pa: Byte, pb: Byte, pc: Byte, pd: Byte)
    requires Word4(a, b, c, d) == Word4(pa, pb, pc, pd)
    ensures a == pa && b == pb && c == pc && d == pd
  {
  }

  predicate OctetMatches(octet: Byte, mask: Byte, prefix: Byte) { octet & mask == prefix }

  lemma WordMeans(a: Byte, b: Byte, c: Byte, d: Byte, ma: Byte, mb: Byte, mc: Byte, md: Byte,
                  pa: Byte, pb: Byte, pc: Byte, pd: Byte)
    ensures Masked(Word4(a, b, c, d), Word4(ma, mb, mc, md)) == Word4(pa, pb, pc, pd) <==>
              OctetMatches(a, ma, pa) && OctetMatches(b, mb, pb) && OctetMatches(c, mc, pc) && OctetMatches(d, md, pd)
  {
    hide Word4;
    Word4And(a, b, c, d, ma, mb, mc, md);
    if Word4(a & ma, b & mb, c & mc, d & md) == Word4(pa, pb, pc, pd) {
      Word4Injective(a & ma, b & mb, c & mc, d & md, pa, pb, pc, pd);
    }
  }

  /** A power of two below 2^8, by table. */
  function SmallPower(n: nat): bv64
    requires n < 8
  {
    if n == 0 then 1 else if n == 1 then 2 else if n == 2 then 4 else if n == 3 then 8
    else if n == 4 then 16 else if n == 5 then 32 else if n == 6 then 64 else 128
  }

  function Power(n: nat): bv64
    requires n <= 32
  {
    if n < 8 then SmallPower(n) else if n < 16 then SmallPower(n - 8) << 8
    else if n < 24 then SmallPower(n - 16) << 16 else if n < 32 then SmallPower(n - 24) << 24 else 0x1_0000_0000
  }

  lemma SmallPowerStep(n: nat)
    requires n < 7
    ensures SmallPower(n + 1) == SmallPower(n) << 1
  {
  }

  lemma Swap(x: bv64)
    ensures (x << 8) << 1 == (x << 1) << 8 && (x << 16) << 1 == (x << 1) << 16 && (x << 24) << 1 == (x << 1) << 24
  {
  }

  lemma PowerStep(n: nat)
    requires n < 32
    ensures Power(n + 1) == Twice(Power(n))
  {
    if n % 8 == 7 {
      assert SmallPower(7) == 128 && SmallPower(0) == 1;
    } else {
      hide SmallPower;
      SmallPowerStep(n % 8);
      Swap(SmallPower(n % 8));
    }
  }

  lemma {:induction false} PowerMeans(n: nat)
    requires n <= 32
    ensures Shl64(1, n) == Power(n)
  {
    hide Power, Twice;
    if n == 0 {
      PowerZero();
    } else {
      PowerMeans(n - 1);
      PowerStep(n - 1);
    }
  }

  lemma PowerZero()
    ensures Power(0) == 1
  {
  }

  /** The mask which has all bits but those below a power of two. */
  lemma MaskFirst(d: nat)
    requires 0 < d <= 8
    ensures Negation(Power(32 - d)) == Word4(OctetMask(d), 0, 0, 0)
  {
  }

  lemma MaskSecond(d: nat)
    requires 0 < d <= 8
    ensures Negation(Power(24 - d)) == Word4(0xff, OctetMask(d), 0, 0)
  {
  }

  lemma MaskThird(d: nat)
    requires 0 < d <= 8
    ensures Negation(Power(16 - d)) == Word4(0xff, 0xff, OctetMask(d), 0)
  {
  }

  lemma MaskFourth(d: nat)
    requires 0 < d <= 8
    ensures Negation(Power(8 - d)) == Word4(0xff, 0xff, 0xff, OctetMask(d))
  {
  }

  /** The mask for the first bits of a word, an octet at a time. */
  lemma MaskOctets(d: nat)
    requires d <= 32
    ensures NegatedPower(32 - d) == Word4(OctetMask(Significant(d, 0)), OctetMask(Significant(d, 8)),
                                          OctetMask(Significant(d, 16)), OctetMask(Significant(d, 24)))
  {
    hide Shl64, Power, Negation, Word4, OctetMask;
    PowerMeans(32 - d);
    OctetMaskEnds();
    if d == 0 {
      MaskNone();
    } else if d <= 8 {
      MaskFirst(d);
    } else if d <= 16 {
      MaskSecond(d - 8);
    } else if d <= 24 {
      MaskThird(d - 16);
    } else {
      MaskFourth(d - 24);
    }
  }

  lemma OctetMaskEnds()
    ensures OctetMask(0) == 0 && OctetMask(8) == 0xff
  {
  }

  lemma MaskNone()
    ensures Word4(0, 0, 0, 0) == 0 && Negation(Power(32)) == 0
    ensures Word4(0xff, 0xff, 0xff, 0xff) == ALL_ONES
  {
  }

  /** The mask for a word of an address, an octet at a time. */
  lemma Mask6Octets(index: nat, length: nat)
    ensures Mask6(index, length) ==
              Word4(OctetMask(Significant(length, index)), OctetMask(Significant(length, index + 8)),
                    OctetMask(Significant(length, index + 16)), OctetMask(Significant(length, index + 24)))
  {
    hide NegatedPower, Word4, OctetMask;
    OctetMaskEnds();
    MaskNone();
    if index < length < index + 32 {
      MaskOctets(length - index);
    }
  }

  /** A word matches exactly if each of its four octets agrees with the prefix in the bits that
      belong to it, the others being zero. */
  lemma WordAgrees(frame: seq<Byte>, k: nat, prefix: seq<Byte>, m: nat, index: nat, length: nat)
    requires k + 4 <= |frame| && m + 4 <= |prefix|
    ensures WordMatches(frame, k, Mask6(index, length), WordAt(prefix, m)) <==>
              && OctetAgrees(frame[k], prefix[m], Significant(length, index))
              && OctetAgrees(frame[k + 1], prefix[m + 1], Significant(length, index + 8))
              && OctetAgrees(frame[k + 2], prefix[m + 2], Significant(length, index + 16))
              && OctetAgrees(frame[k + 3], prefix[m + 3], Significant(length, index + 24))
  {
    var a, b := Significant(length, index), Significant(length, index + 8);
    var c, d := Significant(length, index + 16), Significant(length, index + 24);
    WordAtIs(frame, k);
    WordAtIs(prefix, m);
    Mask6Octets(index, length);
    hide OctetMask, OctetAgrees, WordAt, Word4, Significant, Mask6, Masked, OctetMatches;
    WordMeans(frame[k], frame[k + 1], frame[k + 2], frame[k + 3],
              OctetMask(a), OctetMask(b), OctetMask(c), OctetMask(d),
              prefix[m], prefix[m + 1], prefix[m + 2], prefix[m + 3]);
    OctetMeans(frame[k], prefix[m], a);
    OctetMeans(frame[k + 1], prefix[m + 1], b);
    OctetMeans(frame[k + 2], prefix[m + 2], c);
    OctetMeans(frame[k + 3], prefix[m + 3], d);
  }

  lemma WordAtIs(octets: seq<Byte>, k: nat)
    requires k + 4 <= |octets|
    ensures WordAt(octets, k) == Word4(octets[k], octets[k + 1], octets[k + 2], octets[k + 3])
  {
  }

  /** An octet of the address agrees with that of the netblock. */
  predicate PartAgrees(nb: Netblock, frame: seq<Byte>, k: nat, m: nat)
    requires k + m < |frame| && m < |nb.prefix|
  {
    OctetAgrees(frame[k + m], nb.prefix[m], Significant(nb.length, 8 * m))
  }

  /** Agreement octet by octet is agreement bit by bit. */
  lemma BlockByOctets(nb: Netblock, frame: seq<Byte>, k: nat)
    requires nb.length <= 8 * |nb.prefix| && k + |nb.prefix| <= |frame|
    ensures InBlock(nb, frame, k) && HostBitsZero(nb) <==>
              forall m: nat | m < |nb.prefix| :: PartAgrees(nb, frame, k, m)
  {
    hide Bit;
    if InBlock(nb, frame, k) && HostBitsZero(nb) {
      forall m: nat | m < |nb.prefix|
        ensures PartAgrees(nb, frame, k, m)
      {
        forall j: nat | j < 8
          ensures if j < Significant(nb.length, 8 * m) then Bit(frame[k + m], j) == Bit(nb.prefix[m], j)
                  else !Bit(nb.prefix[m], j)
        {
          BitIndex(frame, k, m, j);
          BitIndex(nb.prefix, 0, m, j);
        }
      }
    }
    if forall m: nat | m < |nb.prefix| :: PartAgrees(nb, frame, k, m) {
      forall i: nat | i < 8 * |nb.prefix|
        ensures if i < nb.length then AddressBit(frame, k, i) == AddressBit(nb.prefix, 0, i)
                else !AddressBit(nb.prefix, 0, i)
      {
        assert PartAgrees(nb, frame, k, i / 8);
      }
    }
  }

  lemma BitIndex(octets: seq<Byte>, k: nat, m: nat, j: nat)
    requires j < 8 && k + m < |octets|
    ensures (8 * m + j) / 8 == m && (8 * m + j) % 8 == j
    ensures AddressBit(octets, k, 8 * m + j) == Bit(octets[k + m], j)
  {
  }

  /** An address matches an IPv4 netblock under its mask exactly if the two agree in every bit of
      the prefix, and the netblock has no other bits set (so one which does matches nothing). */
  lemma MatchIsAgreement4(nb: Netblock, frame: seq<Byte>, k: nat)
    requires IsInet4(nb) && k + 4 <= |frame|
    ensures Matches4(nb, frame, k) <==> InBlock(nb, frame, k) && HostBitsZero(nb)
  {
    hide OctetAgrees, WordMatches, InBlock, HostBitsZero, NegatedPower, WordAt;
    BlockByOctets(nb, frame, k);
    WordAgrees(frame, k, nb.prefix, 0, 0, nb.length);
    MaskNone();
    assert Mask4(nb.length) == Mask6(0, nb.length) by { MaskOctets(nb.length); Mask6Octets(0, nb.length); }
    assert Matches4(nb, frame, k) <==>
           && PartAgrees(nb, frame, k, 0) && PartAgrees(nb, frame, k, 1)
           && PartAgrees(nb, frame, k, 2) && PartAgrees(nb, frame, k, 3);
  }

  lemma WordOfParts(nb: Netblock, frame: seq<Byte>, k: nat, i: nat)
    requires IsInet6(nb) && k + 16 <= |frame| && i < 4
    ensures WordMatches(frame, k + i * 4, Mask6(i * 32, nb.length), WordAt(nb.prefix, i * 4)) <==>
              forall m: nat | i * 4 <= m < i * 4 + 4 :: PartAgrees(nb, frame, k, m)
  {
    hide OctetAgrees, WordMatches, Mask6, WordAt;
    WordAgrees(frame, k + i * 4, nb.prefix, i * 4, i * 32, nb.length);
    assert PartAgrees(nb, frame, k, i * 4) && PartAgrees(nb, frame, k, i * 4 + 1) &&
           PartAgrees(nb, frame, k, i * 4 + 2) && PartAgrees(nb, frame, k, i * 4 + 3) <==>
           forall m: nat | i * 4 <= m < i * 4 + 4 :: PartAgrees(nb, frame, k, m);
  }

  /** Likewise for all 128 bits of an IPv6 address, which are compared a word at a time. */
  lemma MatchIsAgreement6(nb: Netblock, frame: seq<Byte>, k: nat)
    requires IsInet6(nb) && k + 16 <= |frame|
    ensures Matches6(nb, frame, k) <==> InBlock(nb, frame, k) && HostBitsZero(nb)
  {
    hide OctetAgrees, WordMatches, InBlock, HostBitsZero, Mask6, WordAt, PartAgrees;
    BlockByOctets(nb, frame, k);
    forall i: nat | i < 4
      ensures WordMatches(frame, k + i * 4, Mask6(i * 32, nb.length), WordAt(nb.prefix, i * 4)) <==>
                forall m: nat | i * 4 <= m < i * 4 + 4 :: PartAgrees(nb, frame, k, m)
    {
      WordOfParts(nb, frame, k, i);
    }
    if Matches6(nb, frame, k) {
      forall m: nat | m < 16
        ensures PartAgrees(nb, frame, k, m)
      {
        var i := m / 4;
        assert WordMatches(frame, k + i * 4, Mask6(i * 32, nb.length), WordAt(nb.prefix, i * 4));
        assert i * 4 <= m < i * 4 + 4;
      }
    }
  }
}
