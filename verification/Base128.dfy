/** Base-128 integers: what they mean, how they are encoded and how they are decoded. */
module Base128 {
  import opened Octets

  const TWO56: int := 0x100_0000_0000_0000
  const TWO57: int := 0x200_0000_0000_0000

  // ---------------------------------------------------------------------------
  // What a string of base-128 digits means
  // ---------------------------------------------------------------------------

  /** Every octet but the last has its continuation bit set. */
  ghost predicate Complete(s: seq<Octet>) {
    && s != []
    && s[|s| - 1] < 128
    && forall k :: 0 <= k < |s| - 1 ==> s[k] >= 128
  }

  /** The value of a digit string which follows a leading part of value `acc`. */
  ghost function ValueFrom(acc: int, s: seq<Octet>): int
    decreases |s|
  {
    if s == [] then acc else ValueFrom(acc * 128 + s[0] % 128, s[1..])
  }

  /** The sign-extended value of the first octet of a signed integer. */
  function FirstSigned(b: Octet): int {
    if b % 128 < 64 then b % 128 else b % 128 - 128
  }

  ghost function UnsignedValue(s: seq<Octet>): int { ValueFrom(0, s) }

  ghost function SignedValue(s: seq<Octet>): int
    requires s != []
  {
    ValueFrom(FirstSigned(s[0]), s[1..])
  }

  lemma {:induction false} ValueFromAppend(acc: int, s: seq<Octet>, b: Octet)
    ensures ValueFrom(acc, s + [b]) == ValueFrom(acc, s) * 128 + b % 128
    decreases |s|
  {
    if s == [] {
      assert (s + [b])[1..] == [];
    } else {
      assert (s + [b])[1..] == s[1..] + [b];
      ValueFromAppend(acc * 128 + s[0] % 128, s[1..], b);
    }
  }

  // ---------------------------------------------------------------------------
  // Encoding
  // ---------------------------------------------------------------------------

  /** The non-final octets of an unsigned integer. */
  function UnsignedLead(v: nat): seq<Octet> {
    if v == 0 then [] else UnsignedLead(v / 128) + [128 + v % 128]
  }

  function EncodeUnsigned(v: nat): seq<Octet> {
    UnsignedLead(v / 128) + [v % 128]
  }

  predicate Short(v: int) { -64 <= v < 64 }

  /** The non-final octets of a signed integer. */
  function SignedLead(v: int): (s: seq<Octet>)
    decreases Abs(v)
  {
    (if Short(v) then [] else SignedLead(v / 128)) + [128 + v % 128]
  }

  function EncodeSigned(v: int): seq<Octet> {
    (if Short(v) then [] else SignedLead(v / 128)) + [v % 128]
  }

  lemma {:induction false} UnsignedLeadMeans(v: nat)
    ensures forall k :: 0 <= k < |UnsignedLead(v)| ==> UnsignedLead(v)[k] >= 128
    ensures ValueFrom(0, UnsignedLead(v)) == v
  {
    if v == 0 {
    } else {
      UnsignedLeadMeans(v / 128);
      ValueFromAppend(0, UnsignedLead(v / 128), 128 + v % 128);
    }
  }

  /** Encoding an unsigned integer gives a complete string of that value. */
  lemma EncodeUnsignedMeans(v: nat)
    ensures Complete(EncodeUnsigned(v)) && UnsignedValue(EncodeUnsigned(v)) == v
  {
    UnsignedLeadMeans(v / 128);
    ValueFromAppend(0, UnsignedLead(v / 128), v % 128);
  }

  lemma {:induction false} SignedLeadMeans(v: int)
    ensures SignedLead(v) != []
    ensures forall k :: 0 <= k < |SignedLead(v)| ==> SignedLead(v)[k] >= 128
    ensures SignedValue(SignedLead(v)) == v
    decreases Abs(v)
  {
    if Short(v) {
    } else {
      var s := SignedLead(v / 128);
      SignedLeadMeans(v / 128);
      ValueFromAppend(FirstSigned(s[0]), s[1..], 128 + v % 128);
      assert (s + [128 + v % 128])[1..] == s[1..] + [128 + v % 128];
    }
  }

  /** Encoding a signed integer gives a complete string of that value. */
  lemma EncodeSignedMeans(v: int)
    ensures Complete(EncodeSigned(v)) && SignedValue(EncodeSigned(v)) == v
  {
    if !Short(v) {
      var s := SignedLead(v / 128);
      SignedLeadMeans(v / 128);
      ValueFromAppend(FirstSigned(s[0]), s[1..], v % 128);
      assert (s + [v % 128])[1..] == s[1..] + [v % 128];
    }
  }

  /** No digit string of the same value is shorter than the encoding. */
  lemma {:induction false} EncodeUnsignedMinimal(s: seq<Octet>)
    requires s != []
    ensures UnsignedValue(s) >= 0
    ensures |EncodeUnsigned(UnsignedValue(s))| <= |s|
  {
    var n := |s| - 1;
    assert s == s[..n] + [s[n]];
    ValueFromAppend(0, s[..n], s[n]);
    if n == 0 {
    } else {
      EncodeUnsignedMinimal(s[..n]);
      var w := UnsignedValue(s[..n]);
      assert UnsignedValue(s) / 128 == w;
      assert |UnsignedLead(w)| <= |EncodeUnsigned(w)|;
    }
  }

  lemma {:induction false} EncodeSignedMinimal(s: seq<Octet>)
    requires s != []
    ensures |EncodeSigned(SignedValue(s))| <= |s|
  {
    var n := |s| - 1;
    if n == 0 {
    } else {
      assert s[1..] == s[..n][1..] + [s[n]];
      ValueFromAppend(FirstSigned(s[0]), s[..n][1..], s[n]);
      EncodeSignedMinimal(s[..n]);
      var w := SignedValue(s[..n]);
      assert SignedValue(s) / 128 == w;
      assert |SignedLead(w)| == |EncodeSigned(w)|;
    }
  }

  // ---------------------------------------------------------------------------
  // Decoding
  // ---------------------------------------------------------------------------

  /** Continue decoding after a leading part of value `acc`, giving up if shifting
      it left by seven bits would take it out of range. */
  function DecodeFrom(lo: int, hi: int, acc: int, s: seq<Octet>): (p: Parsed<int>)
    ensures p.Done? ==> |p.rest| < |s| && p.rest == s[|s| - |p.rest|..]
    ensures p.Done? ==> lo * 128 <= p.value < hi * 128
    decreases |s|
  {
    if !(lo <= acc < hi) then Failed(Overflow)
    else if s == [] then Failed(Eof)
    else if s[0] < 128 then Done(acc * 128 + s[0] % 128, s[1..])
    else DecodeFrom(lo, hi, acc * 128 + s[0] % 128, s[1..])
  }

  function DecodeUnsigned(s: seq<Octet>): (p: Parsed<int>)
    ensures p.Done? ==> IsUInt64(p.value)
    ensures p.Done? ==> |p.rest| < |s| && p.rest == s[|s| - |p.rest|..]
  {
    DecodeFrom(0, TWO57, 0, s)
  }

  function DecodeSigned(s: seq<Octet>): (p: Parsed<int>)
    ensures p.Done? ==> IsInt64(p.value)
    ensures p.Done? ==> |p.rest| < |s| && p.rest == s[|s| - |p.rest|..]
  {
    if s == [] then Failed(Eof)
    else if s[0] < 128 then Done(FirstSigned(s[0]), s[1..])
    else DecodeFrom(-TWO56, TWO56, FirstSigned(s[0]), s[1..])
  }

  lemma {:induction false} ValueFromEscapes(lo: int, hi: int, acc: int, s: seq<Octet>)
    requires lo <= 0 < hi && s != [] && !(lo <= acc < hi)
    ensures !(lo * 128 <= ValueFrom(acc, s) < hi * 128)
    decreases |s|
  {
    var acc' := acc * 128 + s[0] % 128;
    if |s| <= 1 {
    } else {
      ValueFromEscapes(lo, hi, acc', s[1..]);
    }
  }

  lemma {:induction false} DecodeFromExact(lo: int, hi: int, acc: int, s: seq<Octet>, t: seq<Octet>)
    requires lo <= 0 < hi && Complete(s)
    ensures DecodeFrom(lo, hi, acc, s + t)
         == if lo * 128 <= ValueFrom(acc, s) < hi * 128 then Done(ValueFrom(acc, s), t) else Failed(Overflow)
    decreases |s|
  {
    if !(lo <= acc < hi) {
      ValueFromEscapes(lo, hi, acc, s);
    } else if |s| == 1 {
      DecodeLast(lo, hi, acc, s[0], t);
      assert s == [s[0]];
    } else {
      DecodeMore(lo, hi, acc, s, t);
      DecodeFromExact(lo, hi, acc * 128 + s[0] % 128, s[1..], t);
    }
  }

  lemma DecodeMore(lo: int, hi: int, acc: int, s: seq<Octet>, t: seq<Octet>)
    requires lo <= acc < hi && s != [] && s[0] >= 128
    ensures var acc' := acc * 128 + s[0] % 128;
            && DecodeFrom(lo, hi, acc, s + t) == DecodeFrom(lo, hi, acc', s[1..] + t)
            && ValueFrom(acc, s) == ValueFrom(acc', s[1..])
  {
    assert (s + t)[1..] == s[1..] + t;
  }

  lemma DecodeLast(lo: int, hi: int, acc: int, b: Octet, t: seq<Octet>)
    requires lo <= acc < hi && b < 128
    ensures DecodeFrom(lo, hi, acc, [b] + t) == Done(acc * 128 + b % 128, t)
    ensures ValueFrom(acc, [b]) == acc * 128 + b % 128
    ensures lo * 128 <= acc * 128 + b % 128 < hi * 128
  {
    assert ([b] + t)[1..] == t;
    assert [b][1..] == [];
  }

  /** The unsigned decoder stops after a complete string, and overflows exactly
      when the value of the string does not fit in 64 bits. */
  lemma DecodeUnsignedExact(s: seq<Octet>, t: seq<Octet>)
    requires Complete(s)
    ensures DecodeUnsigned(s + t)
         == if IsUInt64(UnsignedValue(s)) then Done(UnsignedValue(s), t) else Failed(Overflow)
  {
    DecodeFromExact(0, TWO57, 0, s, t);
  }

  /** The same for the signed decoder. */
  lemma DecodeSignedExact(s: seq<Octet>, t: seq<Octet>)
    requires Complete(s)
    ensures DecodeSigned(s + t)
         == if IsInt64(SignedValue(s)) then Done(SignedValue(s), t) else Failed(Overflow)
  {
    assert (s + t)[1..] == s[1..] + t;
    if |s| == 1 {
      assert s[1..] == [] && s[1..] + t == t;
    } else {
      DecodeFromExact(-TWO56, TWO56, FirstSigned(s[0]), s[1..], t);
    }
  }

  lemma {:induction false} DecodeFromIncomplete(lo: int, hi: int, acc: int, s: seq<Octet>)
    requires lo <= 0 < hi && forall i | 0 <= i < |s| :: s[i] >= 128
    ensures DecodeFrom(lo, hi, acc, s) == Failed(if lo <= ValueFrom(acc, s) < hi then Eof else Overflow)
    decreases |s|
  {
    if !(lo <= acc < hi) {
      if s != [] {
        ValueFromEscapes(lo, hi, acc, s);
      }
    } else if s != [] {
      DecodeFromIncomplete(lo, hi, acc * 128 + s[0] % 128, s[1..]);
    }
  }

  /** If the input ends before the string does then what is reported is the end of the file, unless
      there is no room for seven more bits. */
  lemma DecodeUnsignedIncomplete(s: seq<Octet>)
    requires forall i | 0 <= i < |s| :: s[i] >= 128
    ensures DecodeUnsigned(s) == Failed(if UnsignedValue(s) < 0x200_0000_0000_0000 then Eof else Overflow)
  {
    DecodeFromIncomplete(0, TWO57, 0, s);
    ValueFromNat(0, s);
  }

  lemma DecodeSignedIncomplete(s: seq<Octet>)
    requires forall i | 0 <= i < |s| :: s[i] >= 128
    ensures DecodeSigned([]) == Failed(Eof)
    ensures s != [] ==>
              DecodeSigned(s) ==
                Failed(if -0x100_0000_0000_0000 <= SignedValue(s) < 0x100_0000_0000_0000 then Eof else Overflow)
  {
    if s != [] {
      DecodeFromIncomplete(-TWO56, TWO56, FirstSigned(s[0]), s[1..]);
    }
  }

  lemma {:induction false} ValueFromNat(acc: nat, s: seq<Octet>)
    ensures ValueFrom(acc, s) >= 0
    decreases |s|
  {
    if s != [] {
      ValueFromNat(acc * 128 + s[0] % 128, s[1..]);
    }
  }

  /** Decoding inverts encoding, whatever follows. */
  lemma UnsignedRoundTrip(v: nat, t: seq<Octet>)
    requires IsUInt64(v)
    ensures DecodeUnsigned(EncodeUnsigned(v) + t) == Done(v, t)
  {
    EncodeUnsignedMeans(v);
    DecodeUnsignedExact(EncodeUnsigned(v), t);
  }

  lemma SignedRoundTrip(v: int, t: seq<Octet>)
    requires IsInt64(v)
    ensures DecodeSigned(EncodeSigned(v) + t) == Done(v, t)
  {
    EncodeSignedMeans(v);
    DecodeSignedExact(EncodeSigned(v), t);
  }
}
