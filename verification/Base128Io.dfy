/** Base-128 integers: the loops which write and read them. */
module Base128Io {
  import opened Octets
  import opened OctetWriters
  import opened OctetReaders
  import opened Base128

  /** What a reading method promises when its specification is the parser `p`:
      the same value and the same octets left over, or the same exception. */
  ghost predicate Follows<T>(r: Result<T>, src: OctetReader, p: Parsed<T>)
    reads src, src.buffer
    requires src.Valid()
  {
    match p
    case Done(v, rest) => r == Ok(v) && src.Remaining() == rest
    case Failed(e) => r == Err(e)
  }

  /** Compute the number of octets needed to encode an unsigned integer. */
  method UnsignedLength(value: int) returns (length: nat)
    requires IsUInt64(value)
    ensures length == |EncodeUnsigned(value)| && length >= 1
    ensures Shr(value, length * 7) == 0
    ensures length > 1 ==> Shr(value, (length - 1) * 7) > 0
  {
    length := 1;
    var size := 7;
    ShrBy7(value, 0);
    while Shr(value, size) != 0
      invariant length >= 1 && size == length * 7
      invariant Shr(value, size) >= 0
      invariant length > 1 ==> Shr(value, size - 7) > 0
      invariant |EncodeUnsigned(value)| == length + |UnsignedLead(Shr(value, size))|
      decreases Shr(value, size)
    {
      ShrBy7(value, size);
      size := size + 7;
      length := length + 1;
    }
  }

  /** Compute the number of octets needed to encode a signed integer, by counting
      the significant bits which differ from the sign bit. */
  method SignedLength(value: int) returns (length: nat)
    requires IsInt64(value)
    ensures length == |EncodeSigned(value)| && length >= 1
    ensures Short(Shr(value, (length - 1) * 7))
    ensures length > 1 ==> !Short(Shr(value, (length - 2) * 7))
  {
    var dvalue := if value >= 0 then value else -value - 1;
    length := 1;
    var size := 6;
    ghost var v := value;
    ShrBy6(dvalue);
    while Shr(dvalue, size) != 0
      invariant length >= 1 && size == length * 7 - 1
      invariant v == Shr(value, (length - 1) * 7)
      invariant Shr(dvalue, size) == (if v >= 0 then v else -v - 1) / 64
      invariant |EncodeSigned(value)| == length - 1 + |EncodeSigned(v)|
      invariant length > 1 ==> !Short(Shr(value, (length - 2) * 7))
      decreases Shr(dvalue, size)
    {
      ShrBy7(dvalue, size);
      ShrBy7(value, (length - 1) * 7);
      assert (length - 1) * 7 + 7 == length * 7;
      v := v / 128;
      size := size + 7;
      length := length + 1;
    }
  }

  lemma ShrBy6(v: int)
    ensures Shr(v, 6) == v / 64
  {
    assert Shr(v, 1) == v / 2;
    assert Shr(v, 2) == v / 2 / 2 == v / 4;
    assert Shr(v, 3) == v / 4 / 2 == v / 8;
    assert Shr(v, 4) == v / 8 / 2 == v / 16;
    assert Shr(v, 5) == v / 16 / 2 == v / 32;
  }

  method WriteUnsignedBase128(value: int, dst: OctetWriter)
    requires IsUInt64(value)
    requires dst.Valid() && dst.buffer.Length > 0
    modifies dst, dst.buffer
    ensures dst.Valid()
    ensures dst.Written() == old(dst.Written()) + EncodeUnsigned(value)
  {
    var length := UnsignedLength(value);
    var size := length * 7;
    while size > 7
      invariant size % 7 == 0 && 7 <= size <= length * 7
      invariant dst.Valid()
      invariant Shr(value, size) >= 0
      invariant size < length * 7 ==> Shr(value, size) > 0
      invariant dst.Written() == old(dst.Written()) + UnsignedLead(Shr(value, size))
    {
      size := size - 7;
      ShrBy7(value, size);
      assert Shr(value, size) > 0;
      dst.Write(128 + Shr(value, size) % 128);
    }
    ShrBy7(value, 0);
    dst.Write(value % 128);
  }

  /** A signed integer never needs more than ten octets. */
  lemma SignedLengthBound(value: int, length: nat)
    requires IsInt64(value) && length > 1 && !Short(Shr(value, (length - 2) * 7))
    ensures length <= 10
  {
    if length > 10 {
      Pow2Values();
      ShrRange(value, 63, 0);
      ShrAdd(value, 63, (length - 2) * 7 - 63);
      ShrWithin(-64, 64, Shr(value, 63), (length - 2) * 7 - 63);
    }
  }

  lemma {:induction false} ShrAdd(v: int, m: nat, n: nat)
    ensures Shr(v, m + n) == Shr(Shr(v, m), n)
  {
    if n == 0 {
    } else {
      ShrAdd(v, m, n - 1);
      assert m + n - 1 == m + (n - 1);
    }
  }

  lemma SignBit(value: int)
    requires IsInt64(value)
    ensures Shr(value, 63) == if value < 0 then -1 else 0
  {
    Pow2Values();
    ShrRange(value, 63, 0);
    if value >= 0 {
      ShrPositive(value, 63);
    } else {
      ShrPositive(-value - 1, 63);
      ShrComplement(value, 63);
    }
  }

  /** Write a signed integer from its two's complement form. The first of ten
      octets encodes only the sign bit. */
  method WriteSignedBase128(value: int, dst: OctetWriter)
    requires IsInt64(value)
    requires dst.Valid() && dst.buffer.Length > 0
    modifies dst, dst.buffer
    ensures dst.Valid()
    ensures dst.Written() == old(dst.Written()) + EncodeSigned(value)
  {
    hide OctetWriter.Written, Shr, SignedLead, EncodeSigned, LeadWritten;
    var length := SignedLength(value);
    var tcvalue := ToUInt64(value);
    if length > 1 {
      SignedLengthBound(value, length);
    }
    var size := length * 7;
    ghost var before := dst.Written();
    LeadStart(value, length);
    while size > 63
      invariant size % 7 == 0 && size >= 7 && length * 7 - 7 <= size <= length * 7
      invariant size < length * 7 ==> size == 63 && !Short(Shr(value, size - 7))
      invariant dst.Valid()
      invariant dst.Written() == before + LeadWritten(value, size, length)
    {
      LeadStep(value, size, length);
      SignBit(value);
      size := size - 7;
      if tcvalue >= TWO63 {
        dst.Write(0xff);
      } else {
        dst.Write(0x80);
      }
    }
    while size > 7
      invariant size % 7 == 0 && 7 <= size <= 63 && size <= length * 7
      invariant size < length * 7 ==> !Short(Shr(value, size - 7))
      invariant dst.Valid()
      invariant dst.Written() == before + LeadWritten(value, size, length)
    {
      LeadStep(value, size, length);
      size := size - 7;
      ShrTwosComplement(value, size);
      dst.Write(128 + Shr(tcvalue, size) % 128);
    }
    LeadFinish(value, size, length);
    dst.Write(tcvalue % 128);
  }

  lemma LeadStart(value: int, length: nat)
    ensures LeadWritten(value, length * 7, length) == []
  {
  }

  lemma LeadFinish(value: int, size: nat, length: nat)
    requires IsInt64(value) && length >= 1 && size == 7
    requires length == 1 <==> Short(Shr(value, 0))
    ensures EncodeSigned(value) == LeadWritten(value, size, length) + [ToUInt64(value) % 128]
  {
    ShrBy7(value, 0);
    ShrTwosComplement(value, 0);
  }

  /** The octets written once those for bits `size` and up have been. */
  ghost function LeadWritten(value: int, size: nat, length: nat): seq<Octet> {
    if size == length * 7 then [] else SignedLead(Shr(value, size))
  }

  lemma LeadStep(value: int, size: nat, length: nat)
    requires 7 < size <= length * 7 && size % 7 == 0
    requires Short(Shr(value, (length - 1) * 7))
    requires length > 1 ==> !Short(Shr(value, (length - 2) * 7))
    requires size < length * 7 ==> !Short(Shr(value, size - 7))
    ensures LeadWritten(value, size - 7, length)
         == LeadWritten(value, size, length) + [128 + Shr(value, size - 7) % 128]
    ensures !Short(Shr(value, size - 14))
  {
    ShrBy7(value, size - 7);
    ShrBy7(value, size - 14);
  }

  // ---------------------------------------------------------------------------
  // Reading
  // ---------------------------------------------------------------------------

  /** The state of a decoding loop: `byte` was the last octet read, and `acc` the
      value so far. */
  function Continue(lo: int, hi: int, byte: Octet, acc: int, s: seq<Octet>): Parsed<int> {
    if byte >= 128 then DecodeFrom(lo, hi, acc, s) else Done(acc, s)
  }

  lemma ContinueStep(lo: int, hi: int, byte: Octet, acc: int, s: seq<Octet>)
    requires byte >= 128
    ensures Continue(lo, hi, byte, acc, s)
         == if !(lo <= acc < hi) then Failed(Overflow)
            else if s == [] then Failed(Eof)
            else Continue(lo, hi, s[0], acc * 128 + s[0] % 128, s[1..])
  {
  }

  lemma UnsignedStart(s: seq<Octet>)
    ensures DecodeUnsigned(s)
         == if s == [] then Failed(Eof) else Continue(0, TWO57, s[0], s[0] % 128, s[1..])
  {
  }

  lemma UnsignedTest(result: int)
    requires IsUInt64(result)
    ensures result / TWO57 != 0 <==> !(0 <= result < TWO57)
  {
  }

  lemma SignedTest(result: int)
    requires IsInt64(result)
    ensures (result / TWO56 + 1) / 2 != 0 <==> !(-TWO56 <= result < TWO56)
  {
  }

  method ReadUnsignedBase128(src: OctetReader) returns (r: Result<int>, count: nat)
    requires src.Valid() && src.buffer.Length > 0
    modifies src, src.buffer
    ensures src.Valid()
    ensures Follows(r, src, DecodeUnsigned(old(src.Remaining())))
    ensures r.Ok? ==> count + |src.Remaining()| == |old(src.Remaining())|
  {
    hide OctetReader.Remaining, DecodeFrom;
    ghost var input := src.Remaining();
    UnsignedStart(input);
    count := 0;
    var octet := src.Read();
    if octet.Err? {
      return Err(octet.error), count;
    }
    count := 1;
    var byte := octet.value;
    var result := byte % 128;
    while byte >= 128
      invariant src.Valid()
      invariant 0 <= result < TWO64
      invariant count + |src.Remaining()| == |input|
      invariant DecodeUnsigned(input) == Continue(0, TWO57, byte, result, src.Remaining())
      decreases |src.Remaining()| + byte / 128
    {
      UnsignedTest(result);
      ContinueStep(0, TWO57, byte, result, src.Remaining());
      if result / TWO57 != 0 {
        return Err(Overflow), count;
      }
      octet := src.Read();
      if octet.Err? {
        return Err(octet.error), count;
      }
      count := count + 1;
      byte := octet.value;
      result := result * 128 + byte % 128;
    }
    r := Ok(result);
  }

  /** The decoder of the octet reader, which accumulates a signed 64-bit integer. */
  method ReadSignedBase128(src: OctetReader) returns (r: Result<int>, count: nat)
    requires src.Valid() && src.buffer.Length > 0
    modifies src, src.buffer
    ensures src.Valid()
    ensures Follows(r, src, DecodeSigned(old(src.Remaining())))
    ensures r.Ok? ==> IsInt64(r.value)
    ensures r.Ok? ==> count + |src.Remaining()| == |old(src.Remaining())|
  {
    hide OctetReader.Remaining, DecodeFrom;
    ghost var input := src.Remaining();
    count := 0;
    var octet := src.Read();
    if octet.Err? {
      return Err(octet.error), count;
    }
    count := 1;
    var byte := octet.value;
    var result: int := byte % 64;
    if byte % 128 >= 64 {
      result := result - 64;
    }
    FirstOctet(byte);
    while byte >= 128
      invariant src.Valid()
      invariant IsInt64(result)
      invariant count + |src.Remaining()| == |input|
      invariant DecodeSigned(input) == Continue(-TWO56, TWO56, byte, result, src.Remaining())
      decreases |src.Remaining()| + byte / 128
    {
      SignedTest(result);
      ContinueStep(-TWO56, TWO56, byte, result, src.Remaining());
      if (result / TWO56 + 1) / 2 != 0 {
        return Err(Overflow), count;
      }
      octet := src.Read();
      if octet.Err? {
        return Err(octet.error), count;
      }
      count := count + 1;
      byte := octet.value;
      result := result * 128 + byte % 128;
    }
    r := Ok(result);
  }

  lemma FromTwosComplement(v: int)
    requires IsInt64(v)
    ensures v % TWO64 % TWO63 - (if v % TWO64 >= TWO63 then TWO63 else 0) == v
  {
    if v < 0 {
      assert v % TWO64 == v + TWO64;
      assert (v + TWO64) % TWO63 == v + TWO63;
    } else {
      assert v % TWO64 == v;
    }
  }

  lemma FirstOctet(byte: Octet)
    ensures FirstSigned(byte) == if byte % 128 >= 64 then byte % 64 as int - 64 else byte % 64
    ensures byte % 128 < 64 ==> FirstSigned(byte) % TWO64 == FirstSigned(byte)
  {
  }

  lemma TwosComplementStep(v: int, byte: Octet)
    requires IsInt64(v)
    ensures (v % TWO64 / TWO56 + 1) / 2 % 128 != 0 <==> !(-TWO56 <= v < TWO56)
    ensures -TWO56 <= v < TWO56 ==>
              && IsInt64(v * 128 + byte % 128)
              && v % TWO64 * 128 % TWO64 + byte % 128 == (v * 128 + byte % 128) % TWO64
  {
    if v >= 0 {
      assert v % TWO64 == v;
    } else {
      assert v % TWO64 == v + TWO64;
      if -TWO56 <= v {
        assert (v + TWO64) * 128 % TWO64 == v * 128 + TWO64;
        assert (v * 128 + byte % 128) % TWO64 == v * 128 + byte % 128 + TWO64;
      }
    }
  }

  /** The decoder of the signed base-128 integer class, which accumulates the two's
      complement form in an unsigned 64-bit integer and so tests for overflow
      differently. It has the same specification, so the two always agree. */
  method ReadSignedTwosComplement(src: OctetReader) returns (r: Result<int>, length: nat)
    requires src.Valid() && src.buffer.Length > 0
    modifies src, src.buffer
    ensures src.Valid()
    ensures Follows(r, src, DecodeSigned(old(src.Remaining())))
    ensures r.Ok? ==> length + |src.Remaining()| == |old(src.Remaining())|
  {
    hide OctetReader.Remaining, DecodeFrom;
    ghost var input := src.Remaining();
    length := 1;
    var octet := src.Read();
    if octet.Err? {
      return Err(octet.error), length;
    }
    var byte := octet.value;
    var tcvalue: int := byte % 64;
    if byte % 128 >= 64 {
      tcvalue := (tcvalue - 64) % TWO64;
    }
    ghost var v := FirstSigned(byte);
    FirstOctet(byte);
    while byte >= 128
      invariant src.Valid()
      invariant IsInt64(v) && tcvalue == v % TWO64
      invariant length + |src.Remaining()| == |input|
      invariant DecodeSigned(input) == Continue(-TWO56, TWO56, byte, v, src.Remaining())
      decreases |src.Remaining()| + byte / 128
    {
      // The top octet plus one has bits other than bit 0 of its low octet set
      // unless the top octet is all zeros or all ones.
      TwosComplementStep(v, byte);
      ContinueStep(-TWO56, TWO56, byte, v, src.Remaining());
      if (tcvalue / TWO56 + 1) / 2 % 128 != 0 {
        return Err(Overflow), length;
      }
      tcvalue := tcvalue * 128 % TWO64;
      octet := src.Read();
      if octet.Err? {
        return Err(octet.error), length;
      }
      byte := octet.value;
      length := length + 1;
      TwosComplementStep(v, byte);
      tcvalue := tcvalue + byte % 128;
      v := v * 128 + byte % 128;
    }
    // Convert back from two's complement.
    FromTwosComplement(v);
    var value := tcvalue % TWO63;
    if tcvalue >= TWO63 {
      value := value - TWO63;
    }
    r := Ok(value);
  }
}
