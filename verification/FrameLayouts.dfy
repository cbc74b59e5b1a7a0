/** What a compiled filter does with Ethernet frames, in terms of how these are laid out. */
module FrameLayouts {
  import opened Octets
  import opened Prefixes
  import opened AddressFilters

  /** Whether an address is in one of the listed netblocks. */
  ghost predicate Listed(nbs: seq<Netblock>, address: seq<Byte>)
    requires forall nb | nb in nbs :: |nb.prefix| == |address| && nb.length <= 8 * |address|
  {
    exists nb | nb in nbs :: InBlock(nb, address, 0) && HostBitsZero(nb)
  }

  /** A frame which carries an IPv4 datagram (section 3.1 of RFC 791): two Ethernet addresses, a type,
      twelve octets of the header, and the source and destination addresses. */
  function Frame4(ends: seq<Byte>, header: seq<Byte>, src: seq<Byte>, dst: seq<Byte>, rest: seq<Byte>): seq<Byte> {
    ends + [0x08, 0x00] + header + src + dst + rest
  }

  /** One which carries an IPv6 datagram (section 3 of RFC 8200), with eight octets ahead of the
      addresses. */
  function Frame6(ends: seq<Byte>, header: seq<Byte>, src: seq<Byte>, dst: seq<Byte>, rest: seq<Byte>): seq<Byte> {
    ends + [0x86, 0xdd] + header + src + dst + rest
  }

  /** It does not matter where an address is. */
  lemma BlockMoved(nb: Netblock, frame: seq<Byte>, k: nat, address: seq<Byte>)
    requires |nb.prefix| == |address| && nb.length <= 8 * |address|
    requires k + |address| <= |frame| && frame[k..k + |address|] == address
    ensures InBlock(nb, frame, k) <==> InBlock(nb, address, 0)
  {
    hide Bit;
    forall i: nat | i < nb.length
      ensures AddressBit(frame, k, i) == AddressBit(address, 0, i)
    {
      assert frame[k..k + |address|][i / 8] == frame[k + i / 8];
    }
  }

  lemma ExcludedMeans(nbs: seq<Netblock>, frame: seq<Byte>, k: nat, address: seq<Byte>)
    requires forall nb | nb in nbs :: |nb.prefix| == |address| && nb.length <= 8 * |address|
    requires k + |address| <= |frame| && frame[k..k + |address|] == address
    ensures Excluded(nbs, frame, k, |address|) <==> Listed(nbs, address)
  {
    hide InBlock, HostBitsZero;
    forall nb | nb in nbs
      ensures InBlock(nb, frame, k) <==> InBlock(nb, address, 0)
    {
      BlockMoved(nb, frame, k, address);
    }
  }

  lemma TypeOf(ends: seq<Byte>, a: Byte, b: Byte, rest: seq<Byte>)
    requires |ends| == 12
    ensures var frame := ends + [a, b] + rest;
            && (Half(frame, 12) == 0x0800 <==> a == 0x08 && b == 0x00)
            && (Half(frame, 12) == 0x86dd <==> a == 0x86 && b == 0xdd)
  {
    var frame := ends + [a, b] + rest;
    assert frame[12] == a && frame[13] == b;
    HalfMeans(a, b);
  }

  lemma HalfMeans(a: Byte, b: Byte)
    ensures (a as Word << 8) | b as Word == 0x0800 <==> a == 0x08 && b == 0x00
    ensures (a as Word << 8) | b as Word == 0x86dd <==> a == 0x86 && b == 0xdd
  {
  }

  /** A frame which carries an IPv4 datagram is rejected exactly if its source or destination address
      is in a listed netblock, and is otherwise accepted whole. */
  lemma FiltersInet4(v4: seq<Netblock>, v6: seq<Netblock>, ends: seq<Byte>, header: seq<Byte>,
                     src: seq<Byte>, dst: seq<Byte>, rest: seq<Byte>)
    requires AllInet4(v4) && AllInet6(v6)
    requires |ends| == 12 && |header| == 12 && |src| == 4 && |dst| == 4
    ensures Run(Program(v4, v6), 0, 0, Frame4(ends, header, src, dst, rest))
         == Returned(if Listed(v4, src) || Listed(v4, dst) then 0 else 0xffff_ffff)
  {
    hide Run, Program, InBlock, HostBitsZero, Half, Listed, Excluded;
    var frame := Frame4(ends, header, src, dst, rest);
    assert frame == ends + [0x08, 0x00] + (header + src + dst + rest);
    TypeOf(ends, 0x08, 0x00, header + src + dst + rest);
    assert frame[26..30] == src && frame[30..34] == dst;
    CompilerCorrect(v4, v6, frame);
    ExcludedMeans(v4, frame, 26, src);
    ExcludedMeans(v4, frame, 30, dst);
  }

  /** Likewise for IPv6. */
  lemma FiltersInet6(v4: seq<Netblock>, v6: seq<Netblock>, ends: seq<Byte>, header: seq<Byte>,
                     src: seq<Byte>, dst: seq<Byte>, rest: seq<Byte>)
    requires AllInet4(v4) && AllInet6(v6)
    requires |ends| == 12 && |header| == 8 && |src| == 16 && |dst| == 16
    ensures Run(Program(v4, v6), 0, 0, Frame6(ends, header, src, dst, rest))
         == Returned(if Listed(v6, src) || Listed(v6, dst) then 0 else 0xffff_ffff)
  {
    hide Run, Program, InBlock, HostBitsZero, Half, Listed, Excluded;
    var frame := Frame6(ends, header, src, dst, rest);
    assert frame == ends + [0x86, 0xdd] + (header + src + dst + rest);
    TypeOf(ends, 0x86, 0xdd, header + src + dst + rest);
    assert frame[22..38] == src && frame[38..54] == dst;
    CompilerCorrect(v4, v6, frame);
    ExcludedMeans(v6, frame, 22, src);
    ExcludedMeans(v6, frame, 38, dst);
  }

  /** A frame of any other type is accepted. */
  lemma FiltersOthers(v4: seq<Netblock>, v6: seq<Netblock>, ends: seq<Byte>, a: Byte, b: Byte, rest: seq<Byte>)
    requires AllInet4(v4) && AllInet6(v6)
    requires |ends| == 12 && !(a == 0x08 && b == 0x00) && !(a == 0x86 && b == 0xdd)
    ensures Run(Program(v4, v6), 0, 0, ends + [a, b] + rest) == Returned(0xffff_ffff)
  {
    hide Run, Program, InBlock, HostBitsZero, Half, Excluded;
    TypeOf(ends, a, b, rest);
    CompilerCorrect(v4, v6, ends + [a, b] + rest);
  }

  /** How many netblocks there are room for: with eight instructions for each, or six for a single
      address, the whole of the IPv4 section has to be short enough to be jumped over. */
  function Singles(v4: seq<Netblock>): nat {
    if v4 == [] then 0 else Singles(v4[..|v4| - 1]) + if v4[|v4| - 1].length == 32 then 1 else 0
  }

  lemma {:induction false} SectionLength(v4: seq<Netblock>, k: nat)
    requires AllInet4(v4)
    ensures |Section4(v4, k)| == 4 * |v4| - Singles(v4)
  {
    hide Block4;
    if v4 == [] {
    } else {
      SectionLength(v4[..|v4| - 1], k);
    }
  }

  lemma Inet4Length(v4: seq<Netblock>)
    requires AllInet4(v4)
    ensures |Part4(v4)| == 8 * |v4| - 2 * Singles(v4) + 1
  {
    hide Section4;
    SectionLength(v4, SRC4);
    SectionLength(v4, DST4);
  }
}
