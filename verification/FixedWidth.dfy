/** Integers written as a stated number of octets, most significant first. */
module FixedWidth {
  import opened Octets
  import opened OctetWriters
  import opened OctetReaders
  import opened Base128Io

  const TWO55: int := 0x80_0000_0000_0000

  /** The number of octets needed for an unsigned integer: none at all for zero. */
  function UnsignedWidth(v: nat): nat {
    if v == 0 then 0 else 1 + UnsignedWidth(v / 256)
  }

  /** The number of octets needed for a signed integer other than zero. */
  function SignificantWidth(v: int): (n: nat)
    ensures n > 0
    decreases Abs(v)
  {
    if -128 <= v < 128 then 1 else 1 + SignificantWidth(v / 256)
  }

  function SignedWidth(v: int): nat {
    if v == 0 then 0 else SignificantWidth(v)
  }

  /** Continue reading after a leading part of value `acc`, giving up if shifting
      it left by eight bits would take it out of range. */
  function DecodeFixed(lo: int, hi: int, acc: int, width: nat, s: seq<Octet>): (p: Parsed<int>)
    ensures p.Done? ==> width <= |s| && p.rest == s[width..]
    ensures p.Done? && lo * 256 <= acc < hi * 256 ==> lo * 256 <= p.value < hi * 256
    decreases width
  {
    if width == 0 then Done(acc, s)
    else if !(lo <= acc < hi) then Failed(Overflow)
    else if s == [] then Failed(Eof)
    else DecodeFixed(lo, hi, acc * 256 + s[0], width - 1, s[1..])
  }

  function DecodeUnsignedFixed(width: nat, s: seq<Octet>): (p: Parsed<int>)
    ensures p.Done? ==> width <= |s| && p.rest == s[width..] && IsUInt64(p.value)
  {
    DecodeFixed(0, 0x100_0000_0000_0000, 0, width, s)
  }

  function TopSigned(b: Octet): int { if b < 128 then b else b - 256 }

  function DecodeSignedFixed(width: nat, s: seq<Octet>): (p: Parsed<int>)
    ensures p.Done? ==> width <= |s| && p.rest == s[width..] && IsInt64(p.value)
  {
    if width == 0 then Done(0, s)
    else if s == [] then Failed(Eof)
    else DecodeFixed(-TWO55, TWO55, TopSigned(s[0]), width - 1, s[1..])
  }

  /** Once the leading octets of `v` have been read, the rest complete its value. */
  lemma {:induction false} DecodeFixedMeans(lo: int, hi: int, v: int, width: nat, t: seq<Octet>)
    requires lo <= 0 < hi && lo * 256 <= v < hi * 256
    ensures DecodeFixed(lo, hi, Shr(v, width * 8), width, BigEndian(v, width) + t) == Done(v, t)
    decreases width
  {
    if width == 0 {
      assert BigEndian(v, 0) + t == t;
    } else {
      var n := (width - 1) * 8;
      ShrBy8(v, n);
      ShrBy8(v, 0);
      ShrAdd(v, 8, n);
      ShrWithin(lo, hi, v / 256, n);
      BigEndianFirst(v, width);
      assert (BigEndian(v, width) + t)[1..] == BigEndian(v, width - 1) + t;
      DecodeFixedMeans(lo, hi, v, width - 1, t);
    }
  }

  lemma {:induction false} UnsignedWidthEnough(v: nat)
    ensures v < Pow2(UnsignedWidth(v) * 8)
  {
    if v == 0 {
    } else {
      UnsignedWidthEnough(v / 256);
      Pow2By8(UnsignedWidth(v / 256) * 8);
    }
  }

  lemma {:induction false} ShrSignificantWidth(v: int)
    ensures -128 <= Shr(v, (SignificantWidth(v) - 1) * 8) < 128
    decreases Abs(v)
  {
    if -128 <= v < 128 {
    } else {
      ShrSignificantWidth(v / 256);
      ShrLowFirst(v, (SignificantWidth(v / 256) - 1) * 8);
    }
  }

  /** Reading the octets of an integer gives it back. */
  lemma UnsignedFixedRoundTrip(v: nat, width: nat, t: seq<Octet>)
    requires IsUInt64(v) && v < Pow2(width * 8)
    ensures DecodeUnsignedFixed(width, BigEndian(v, width) + t) == Done(v, t)
  {
    ShrPositive(v, width * 8);
    ShrRange(v, width * 8, 0);
    DecodeFixedMeans(0, 0x100_0000_0000_0000, v, width, t);
  }

  lemma SignedFixedRoundTrip(v: int, t: seq<Octet>)
    requires IsInt64(v)
    ensures DecodeSignedFixed(SignedWidth(v), BigEndian(v, SignedWidth(v)) + t) == Done(v, t)
  {
    hide BigEndian, DecodeFixed;
    if v == 0 {
      assert BigEndian(v, 0) + t == t;
    } else {
      var width := SignedWidth(v);
      ShrSignificantWidth(v);
      BigEndianFirst(v, width);
      assert (BigEndian(v, width) + t)[1..] == BigEndian(v, width - 1) + t;
      DecodeFixedMeans(-TWO55, TWO55, v, width - 1, t);
    }
  }

  lemma {:induction false} UnsignedWidthBound(v: nat, n: nat)
    requires v < Pow2(n * 8)
    ensures UnsignedWidth(v) <= n
    decreases n
  {
    if v == 0 {
    } else {
      assert n > 0;
      Pow2By8((n - 1) * 8);
      UnsignedWidthBound(v / 256, n - 1);
    }
  }

  function Half(n: nat): nat {
    if n <= 1 then 128 else 256 * Half(n - 1)
  }

  lemma {:induction false} SignificantWidthBound(v: int, n: nat)
    requires n > 0 && 0 <= v + Half(n) && v < Half(n)
    ensures SignificantWidth(v) <= n
    decreases n
  {
    if -128 <= v < 128 {
    } else {
      SignificantWidthBound(v / 256, n - 1);
    }
  }

  lemma Pow2By8(n: nat)
    ensures Pow2(n + 8) == 256 * Pow2(n)
  {
    Pow2By7(n);
    assert Pow2(n + 8) == 2 * Pow2(n + 7);
  }

  /** No 64-bit integer needs more than eight octets, so none is refused on reading. */
  lemma WidthAtMostEight(v: int)
    ensures IsUInt64(v) ==> UnsignedWidth(v) <= 8
    ensures IsInt64(v) ==> SignedWidth(v) <= 8
  {
    Pow2Values();
    if IsUInt64(v) {
      UnsignedWidthBound(v, 8);
    }
    if IsInt64(v) {
      assert Half(4) == 0x8000_0000;
      assert Half(8) == TWO63;
      SignificantWidthBound(v, 8);
    }
  }

  // ---------------------------------------------------------------------------
  // The loops
  // ---------------------------------------------------------------------------

  method ComputeUnsignedWidth(content: int) returns (len: nat)
    requires IsUInt64(content)
    ensures len == UnsignedWidth(content)
  {
    len := 0;
    var rem := content;
    while rem != 0
      invariant rem >= 0
      invariant len + UnsignedWidth(rem) == UnsignedWidth(content)
    {
      len := len + 1;
      rem := rem / 256;
    }
  }

  method ComputeSignedWidth(content: int) returns (count: nat)
    requires IsInt64(content)
    ensures count == SignedWidth(content)
  {
    count := 0;
    if content != 0 {
      count := 1;
      var term := if content >= 0 then 0 else -1;
      var size := 7;
      ghost var v := content;
      ShrBy7(content, 0);
      while Shr(content, size) != term
        invariant count >= 1
        invariant v >= 0 <==> content >= 0
        invariant Shr(content, size) == v / 128
        invariant count - 1 + SignificantWidth(v) == SignificantWidth(content)
        decreases Abs(v)
      {
        ShrBy8(content, size);
        size := size + 8;
        count := count + 1;
        v := v / 256;
      }
    }
  }

  method ReadUnsigned(src: OctetReader, width: nat) returns (r: Result<int>)
    requires src.Valid() && src.buffer.Length > 0
    modifies src, src.buffer
    ensures src.Valid()
    ensures Follows(r, src, DecodeUnsignedFixed(width, old(src.Remaining())))
  {
    hide OctetReader.Remaining;
    ghost var input := src.Remaining();
    var result: int := 0;
    var left := width;
    while left != 0
      invariant 0 <= left <= width && src.Valid()
      invariant DecodeUnsignedFixed(width, input)
             == DecodeFixed(0, 0x100_0000_0000_0000, result, left, src.Remaining())
      invariant result >= 0
      decreases left
    {
      left := left - 1;
      if result / 0x100_0000_0000_0000 != 0 {
        return Err(Overflow);
      }
      var octet := src.Read();
      if octet.Err? {
        return Err(octet.error);
      }
      var low: int := octet.value;
      result := result * 256 + low;
    }
    r := Ok(result);
  }

  method ReadSigned(src: OctetReader, width: nat) returns (r: Result<int>)
    requires src.Valid() && src.buffer.Length > 0
    modifies src, src.buffer
    ensures src.Valid()
    ensures Follows(r, src, DecodeSignedFixed(width, old(src.Remaining())))
  {
    hide OctetReader.Remaining;
    ghost var input := src.Remaining();
    var result: int := 0;
    var left := width;
    if left != 0 {
      var octet := src.Read();
      if octet.Err? {
        return Err(octet.error);
      }
      result := octet.value % 128;
      if octet.value >= 128 {
        result := result - 128;
      }
      left := left - 1;
    }
    while left != 0
      invariant 0 <= left <= width && src.Valid()
      invariant DecodeSignedFixed(width, input)
             == if width == 0 then Done(0, input)
                else DecodeFixed(-TWO55, TWO55, result, left, src.Remaining())
      invariant width == 0 ==> result == 0 && src.Remaining() == input
      decreases left
    {
      left := left - 1;
      SignedFixedTest(result);
      if (result / TWO55 + 1) / 2 != 0 {
        return Err(Overflow);
      }
      var octet := src.Read();
      if octet.Err? {
        return Err(octet.error);
      }
      var low: int := octet.value;
      result := result * 256 + low;
    }
    r := Ok(result);
  }

  lemma SignedFixedTest(result: int)
    ensures (result / TWO55 + 1) / 2 != 0 <==> !(-TWO55 <= result < TWO55)
  {
  }
}
