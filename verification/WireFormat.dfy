/** What the octets of attributes and records mean, type by type. */
module WireFormat {
  import opened Octets
  import opened OctetWriters
  import opened Base128
  import opened FixedWidth
  import opened Attributes
  import opened Codec
  import opened Records

  // ---------------------------------------------------------------------------
  // Integers of a stated width
  // ---------------------------------------------------------------------------

  /** The number which octets stand for, most significant first, after a leading part. */
  function ValueAfter(acc: int, s: seq<Octet>): int
    decreases |s|
  {
    if s == [] then acc else ValueAfter(acc * 256 + s[0], s[1..])
  }

  function Value(s: seq<Octet>): int { ValueAfter(0, s) }

  function Signed(b: int): int { if b < 128 then b else b - 256 }

  /** In two's complement, the first octet counts as negative from 128 upwards. */
  function TwosValue(s: seq<Octet>): int { if s == [] then 0 else ValueAfter(Signed(s[0]), s[1..]) }

  lemma {:induction false} ValueLast(acc: int, s: seq<Octet>, b: Octet)
    ensures ValueAfter(acc, s + [b]) == ValueAfter(acc, s) * 256 + b
    decreases |s|
  {
    if s == [] {
      assert (s + [b])[1..] == [];
    } else {
      assert (s + [b])[1..] == s[1..] + [b];
      ValueLast(acc * 256 + s[0], s[1..], b);
    }
  }

  /** What is written as unsigned stands for the integer, if that fits. */
  lemma {:induction false} WrittenUnsigned(v: nat, width: nat)
    requires v < Pow2(width * 8)
    ensures Value(BigEndian(v, width)) == v
    decreases width
  {
    if width == 0 {
    } else {
      assert width * 8 == (width - 1) * 8 + 8;
      Pow2By8((width - 1) * 8);
      WrittenUnsigned(v / 256, width - 1);
      ValueLast(0, BigEndian(v / 256, width - 1), v % 256);
    }
  }

  lemma TwosLast(s: seq<Octet>, b: Octet)
    requires s != []
    ensures TwosValue(s + [b]) == TwosValue(s) * 256 + b
  {
    assert (s + [b])[1..] == s[1..] + [b];
    ValueLast(Signed(s[0]), s[1..], b);
  }

  /** Likewise as signed. */
  lemma {:induction false} WrittenSigned(v: int, width: nat)
    requires if width == 0 then v == 0 else 0 <= v + Pow2(width * 8 - 1) && v < Pow2(width * 8 - 1)
    ensures TwosValue(BigEndian(v, width)) == v
    decreases width
  {
    if width == 0 {
    } else if width == 1 {
      assert Pow2(7) == 128;
      assert BigEndian(v, 1) == [v % 256];
      assert [v % 256][1..] == [];
    } else {
      assert width * 8 - 1 == (width - 1) * 8 - 1 + 8;
      Pow2By8((width - 1) * 8 - 1);
      WrittenSigned(v / 256, width - 1);
      TwosLast(BigEndian(v / 256, width - 1), v % 256);
    }
  }

  lemma {:induction false} ValueEscapes(lo: int, hi: int, acc: int, s: seq<Octet>)
    requires lo <= 0 < hi && !(lo <= acc < hi)
    ensures !(lo <= ValueAfter(acc, s) < hi)
    decreases |s|
  {
    if s == [] {
    } else {
      ValueEscapes(lo, hi, acc * 256 + s[0], s[1..]);
    }
  }

  /** Any octets are read as the number which they stand for, or overflow if that is out of range. */
  lemma {:induction false} FixedRead(lo: int, hi: int, acc: int, s: seq<Octet>, t: seq<Octet>)
    requires lo <= 0 < hi && lo * 256 <= acc < hi * 256
    ensures DecodeFixed(lo, hi, acc, |s|, s + t) ==
              if lo * 256 <= ValueAfter(acc, s) < hi * 256 then Done(ValueAfter(acc, s), t) else Failed(Overflow)
    decreases |s|
  {
    if s == [] {
      assert s + t == t;
    } else {
      assert (s + t)[1..] == s[1..] + t;
      if lo <= acc < hi {
        FixedRead(lo, hi, acc * 256 + s[0], s[1..], t);
      } else {
        ValueEscapes(lo * 256, hi * 256, acc * 256 + s[0], s[1..]);
      }
    }
  }

  lemma UnsignedRead(s: seq<Octet>, t: seq<Octet>)
    ensures DecodeUnsignedFixed(|s|, s + t) ==
              if 0 <= Value(s) < 0x1_0000_0000_0000_0000 then Done(Value(s), t) else Failed(Overflow)
  {
    FixedRead(0, 0x100_0000_0000_0000, 0, s, t);
  }

  lemma SignedRead(s: seq<Octet>, t: seq<Octet>)
    ensures DecodeSignedFixed(|s|, s + t) ==
              if -0x8000_0000_0000_0000 <= TwosValue(s) < 0x8000_0000_0000_0000 then Done(TwosValue(s), t)
              else Failed(Overflow)
  {
    if s == [] {
      assert s + t == t;
    } else {
      assert (s + t)[1..] == s[1..] + t;
      FixedRead(-TWO55, TWO55, Signed(s[0]), s[1..], t);
    }
  }

  lemma {:induction false} ValueBelow(acc: nat, s: seq<Octet>, n: nat)
    requires acc < Pow2(n)
    ensures 0 <= ValueAfter(acc, s) < Pow2(n + |s| * 8)
    decreases |s|
  {
    if s == [] {
    } else {
      Pow2By8(n);
      ValueBelow(acc * 256 + s[0], s[1..], n + 8);
      assert n + 8 + (|s| - 1) * 8 == n + |s| * 8;
    }
  }

  lemma {:induction false} Pow2Grows(m: nat, n: nat)
    requires m <= n
    ensures Pow2(m) <= Pow2(n)
    decreases n
  {
    if m == n {
    } else {
      Pow2Grows(m, n - 1);
    }
  }

  /** So eight octets or fewer never overflow. */
  lemma EightAtMost(s: seq<Octet>)
    requires |s| <= 8
    ensures 0 <= Value(s) < 0x1_0000_0000_0000_0000
    ensures -0x8000_0000_0000_0000 <= TwosValue(s) < 0x8000_0000_0000_0000
  {
    assert Pow2(0) == 1 && Pow2(7) == 128;
    hide Pow2;
    Pow2Values();
    ValueBelow(0, s, 0);
    Pow2Grows(|s| * 8, 64);
    if s != [] {
      TwosWithin(Signed(s[0]), s[1..], 7);
      Pow2Grows(7 + (|s| - 1) * 8, 63);
    }
  }

  lemma {:induction false} TwosWithin(acc: int, s: seq<Octet>, n: nat)
    requires 0 <= acc + Pow2(n) && acc < Pow2(n)
    ensures 0 <= ValueAfter(acc, s) + Pow2(n + |s| * 8) && ValueAfter(acc, s) < Pow2(n + |s| * 8)
    decreases |s|
  {
    if s == [] {
    } else {
      Pow2By8(n);
      TwosWithin(acc * 256 + s[0], s[1..], n + 8);
      assert n + 8 + (|s| - 1) * 8 == n + |s| * 8;
    }
  }

  /** With too few octets, reading fails. */
  lemma {:induction false} DecodeShort(lo: int, hi: int, acc: int, width: nat, s: seq<Octet>)
    requires |s| < width
    ensures DecodeFixed(lo, hi, acc, width, s).Failed?
    decreases |s|
  {
    if s == [] {
    } else {
      DecodeShort(lo, hi, acc * 256 + s[0], width - 1, s[1..]);
    }
  }

  lemma LeadingNonzero(v: nat)
    requires IsUInt64(v)
    ensures Value(BigEndian(v, UnsignedWidth(v))) == v && UnsignedWidth(v) <= 8
  {
    UnsignedWidthEnough(v);
    WrittenUnsigned(v, UnsignedWidth(v));
    WidthAtMostEight(v);
  }

  lemma {:induction false} HalfMeans(n: nat)
    requires n > 0
    ensures Half(n) == Pow2(n * 8 - 1)
  {
    if n == 1 {
      assert Pow2(7) == 128;
    } else {
      HalfMeans(n - 1);
      assert n * 8 - 1 == (n - 1) * 8 - 1 + 8;
      Pow2By8((n - 1) * 8 - 1);
    }
  }

  /** The width used is the least: no other octets for the integer are fewer. */
  lemma UnsignedShortest(s: seq<Octet>)
    ensures Value(s) >= 0 && UnsignedWidth(Value(s)) <= |s|
  {
    ValueBelow(0, s, 0);
    UnsignedWidthBound(Value(s), |s|);
  }

  lemma SignedShortest(s: seq<Octet>)
    ensures SignedWidth(TwosValue(s)) <= |s|
  {
    if s != [] {
      assert Pow2(7) == 128;
      TwosWithin(Signed(s[0]), s[1..], 7);
      HalfMeans(|s|);
      assert 7 + (|s| - 1) * 8 == |s| * 8 - 1;
      SignificantWidthBound(TwosValue(s), |s|);
    }
  }

  lemma {:induction false} SignificantEnough(v: int)
    ensures 0 <= v + Half(SignificantWidth(v)) && v < Half(SignificantWidth(v))
    decreases Abs(v)
  {
    if -128 <= v < 128 {
    } else {
      SignificantEnough(v / 256);
    }
  }

  lemma SignedMeans(v: int)
    ensures TwosValue(BigEndian(v, SignedWidth(v))) == v
  {
    if v != 0 {
      SignificantEnough(v);
      HalfMeans(SignificantWidth(v));
    }
    WrittenSigned(v, SignedWidth(v));
  }

  // ---------------------------------------------------------------------------
  // Attributes
  // ---------------------------------------------------------------------------

  /** What the content of an attribute is, by type. (That the widths are the least, see above.) */
  lemma ContentMeans(a: Attr)
    ensures var s := EncodeContent(a);
            match a
            case Compound(_, attrs) => s == EncodeList(attrs)
            case UnsignedInt(_, v) => Value(s) == v && |s| == UnsignedWidth(v)
            case SignedInt(_, v) => TwosValue(s) == v && |s| == SignedWidth(v)
            case Binary(_, octets) => s == octets
            case Text(_, octets) => s == octets
            case Timestamp(_, sec, nsec) =>
              |s| >= 4 && Value(s[|s| - 4..]) == nsec && (sec >= 0 ==> Value(s[..|s| - 4]) == sec)
            case Boolean(_, flag) => s == [if flag then 1 else 0]
            case Unrecognised(_, octets) => s == octets
  {
    hide BigEndian, UnsignedWidth, SignedWidth, Value, TwosValue;
    match a
    case UnsignedInt(_, v) => LeadingNonzero(v);
    case SignedInt(_, v) => SignedMeans(v);
    case Timestamp(_, sec, nsec) => TimestampMeans(sec, nsec, EncodeContent(a));
    case _ =>
  }

  lemma TimestampMeans(sec: Int64, nsec: Nanoseconds, s: seq<Octet>)
    requires s == BigEndian(ToUInt64(sec), UnsignedWidth(ToUInt64(sec))) + BigEndian(nsec, 4)
    ensures |s| >= 4 && Value(s[|s| - 4..]) == nsec && (sec >= 0 ==> Value(s[..|s| - 4]) == sec)
  {
    hide BigEndian, UnsignedWidth, Value;
    var u, v := BigEndian(ToUInt64(sec), UnsignedWidth(ToUInt64(sec))), BigEndian(nsec, 4);
    LeadingNonzero(ToUInt64(sec));
    assert nsec < Pow2(32) by { Pow2Values(); }
    WrittenUnsigned(nsec, 4);
    assert s[..|s| - 4] == u && s[|s| - 4..] == v;
  }

  /** An attribute is its ID, the length of its content, and that; a record is its channel, the length
      of its attributes, and those. */
  lemma AttrWritten(a: Attr)
    ensures EncodeAttr(a) == EncodeSigned(a.id) + EncodeUnsigned(|EncodeContent(a)|) + EncodeContent(a)
  {
    ContentLengthExact(a);
  }

  lemma RecordWritten(r: Record)
    ensures var s := EncodeList(r.attributes);
            EncodeRecord(r) == EncodeSigned(r.channel) + EncodeUnsigned(|s|) + s
    ensures r.attributes == [] ==> EncodeList(r.attributes) == []
    ensures r.attributes != [] ==>
              EncodeList(r.attributes) == EncodeAttr(r.attributes[0]) + EncodeList(r.attributes[1..])
  {
    ListLengthExact(r.attributes);
  }

  /** How content of a simple type is read, exactly: types are as numbered in `attribute.h`. (The
      number which eight octets or fewer stand for is always in range.) */
  lemma LeafRead(id: Int32, typ: int, s: seq<Octet>, t: seq<Octet>)
    requires typ != 0
    ensures ParseLeafContent(id, typ, |s|, s + t) ==
              if typ == 1 then
                if |s| <= 8 && IsUInt64(Value(s)) then Done(UnsignedInt(id, Value(s)), t) else Failed(Invalid)
              else if typ == 2 then
                if |s| <= 8 && IsInt64(TwosValue(s)) then Done(SignedInt(id, TwosValue(s)), t) else Failed(Invalid)
              else if typ == 3 then Done(Binary(id, s), t)
              else if typ == 4 then Done(Text(id, s), t)
              else if typ == 5 then TimestampOf(id, s, t)
              else if typ == 6 then
                if |s| == 1 && s[0] <= 1 then Done(Boolean(id, s[0] == 1), t) else Failed(Invalid)
              else Done(Unrecognised(id, s), t)
  {
    hide DecodeUnsignedFixed, DecodeSignedFixed, Value, TwosValue;
    assert (s + t)[..|s|] == s && (s + t)[|s|..] == t;
    if |s| <= 8 {
      EightAtMost(s);
      UnsignedRead(s, t);
      SignedRead(s, t);
    }
    if typ == 5 {
      TimestampRead(id, s, t);
    }
  }

  function TimestampOf(id: Int32, s: seq<Octet>, t: seq<Octet>): Parsed<Attr> {
    if !(5 <= |s| <= 12) then Failed(Invalid)
    else
      var sec, nsec := Value(s[..|s| - 4]), Value(s[|s| - 4..]);
      if 0 <= sec < 0x8000_0000_0000_0000 && 0 <= nsec < 2_000_000_000 then Done(Timestamp(id, sec, nsec), t)
      else Failed(Invalid)
  }

  lemma TimestampRead(id: Int32, s: seq<Octet>, t: seq<Octet>)
    ensures ParseTimestamp(id, |s|, s + t) == TimestampOf(id, s, t)
  {
    hide DecodeUnsignedFixed, Value;
    if 5 <= |s| <= 12 {
      var u, v := s[..|s| - 4], s[|s| - 4..];
      assert s + t == u + (v + t);
      EightAtMost(u);
      EightAtMost(v);
      UnsignedRead(u, v + t);
      UnsignedRead(v, t);
    }
  }

  /** With too few octets for an acceptable length, reading fails for want of more. */
  lemma {:induction false} FixedShort(lo: int, hi: int, acc: int, width: nat, s: seq<Octet>)
    requires |s| < width && lo <= 0 < hi
    requires forall n | 0 <= n <= |s| :: lo <= ValueAfter(acc, s[..n]) < hi
    ensures DecodeFixed(lo, hi, acc, width, s) == Failed(Eof)
    decreases |s|
  {
    assert s[..0] == [];
    if s == [] {
    } else {
      forall n | 0 <= n <= |s[1..]|
        ensures lo <= ValueAfter(acc * 256 + s[0], s[1..][..n]) < hi
      {
        assert s[..n + 1][1..] == s[1..][..n];
        assert ValueAfter(acc, s[..n + 1]) == ValueAfter(acc * 256 + s[0], s[1..][..n]);
      }
      FixedShort(lo, hi, acc * 256 + s[0], width - 1, s[1..]);
    }
  }

  /** Up to seven octets leave room for another. */
  lemma SevenAtMost(s: seq<Octet>)
    requires |s| <= 7
    ensures 0 <= Value(s) < 0x100_0000_0000_0000
    ensures -0x80_0000_0000_0000 <= TwosValue(s) < 0x80_0000_0000_0000
  {
    assert Pow2(0) == 1 && Pow2(7) == 128;
    hide Pow2;
    assert Pow2(56) == 0x100_0000_0000_0000 && Pow2(55) == 0x80_0000_0000_0000 by { Pow2Values(); Fifties(); }
    ValueBelow(0, s, 0);
    Pow2Grows(|s| * 8, 56);
    if s != [] {
      TwosWithin(Signed(s[0]), s[1..], 7);
      Pow2Grows(7 + (|s| - 1) * 8, 55);
    }
  }

  lemma Fifties()
    ensures Pow2(56) == 0x100_0000_0000_0000 && Pow2(55) == 0x80_0000_0000_0000
  {
    assert Pow2(8) == 256;
    assert Pow2(16) == 0x10000;
    assert Pow2(24) == 0x100_0000;
    assert Pow2(32) == 0x1_0000_0000;
    assert Pow2(40) == 0x100_0000_0000;
    assert Pow2(48) == 0x1_0000_0000_0000;
  }

  lemma UnsignedShort(width: nat, s: seq<Octet>)
    requires |s| < width <= 8
    ensures DecodeUnsignedFixed(width, s) == Failed(Eof)
  {
    forall n | 0 <= n <= |s|
      ensures 0 <= ValueAfter(0, s[..n]) < 0x100_0000_0000_0000
    {
      SevenAtMost(s[..n]);
    }
    FixedShort(0, 0x100_0000_0000_0000, 0, width, s);
  }

  lemma SignedShort(width: nat, s: seq<Octet>)
    requires |s| < width <= 8
    ensures DecodeSignedFixed(width, s) == Failed(Eof)
  {
    if s != [] {
      forall n | 0 <= n <= |s[1..]|
        ensures -TWO55 <= ValueAfter(Signed(s[0]), s[1..][..n]) < TWO55
      {
        assert s[..n + 1][1..] == s[1..][..n];
        SevenAtMost(s[..n + 1]);
      }
      FixedShort(-TWO55, TWO55, Signed(s[0]), width - 1, s[1..]);
    }
  }

  lemma LeafShort(id: Int32, typ: int, len: nat, s: seq<Octet>)
    requires typ != 0 && |s| < len
    requires (typ == 1 || typ == 2 ==> len <= 8) && (typ == 5 ==> 5 <= len <= 12) && (typ == 6 ==> len == 1)
    ensures ParseLeafContent(id, typ, len, s) == Failed(Eof)
  {
    hide DecodeUnsignedFixed, DecodeSignedFixed;
    if len <= 8 {
      UnsignedShort(len, s);
      SignedShort(len, s);
    }
    if typ == 5 {
      var n := len - 4;
      if |s| < n {
        UnsignedShort(n, s);
      } else {
        assert s == s[..n] + s[n..];
        UnsignedRead(s[..n], s[n..]);
        EightAtMost(s[..n]);
        UnsignedShort(4, s[n..]);
      }
    }
  }

  /** An attribute of no known type, one which extends beyond the length of the list or record which it is
      in, and an incomplete definition are all invalid. */
  lemma Refused(ctx: Context, id: Int32, len: nat, s: seq<Octet>, parsed: seq<Attr>)
    requires len > 0
    ensures AttrType(ctx, id).None? ==> ParseContent(ctx, id, len, s) == Failed(Invalid)
    ensures var p := ParseOne(ctx, s);
            p.Done? && |s| - |p.rest| > len ==>
              ParseList(ctx, len, s, parsed) == Failed(Invalid)
              && ParseRecordAttrs(ctx, len, s, parsed).parsed == Failed(Invalid)
    ensures var p := ParseOne(ctx, s);
            p.Done? && Extend(ctx, p.value).None? ==>
              ParseRecordAttrs(ctx, len, s, parsed) == Outcome(ctx, Failed(Invalid))
  {
    hide ParseOne, AttrType, Extend;
  }

  /** The types of the reserved attributes, and that no others are reserved. */
  lemma ReservedTypes(ctx: Context, id: Int32)
    ensures id >= 0 ==> AttrType(ctx, id) == if id in ctx.attrTypes then Some(ctx.attrTypes[id]) else None
    ensures id < 0 ==>
              AttrType(ctx, id) ==
                var types := [1, 0, 2, 4, 0, 2, 4, 1, 4, 1, 5, 4, 4, 3, 4, 3, 4, 3];
                if id >= -18 then Some(types[-1 - id as int]) else None
  {
  }

  /** A definition is a compound attribute, -2 or -5, of which the ID is attribute -3 or -6, the label
      -4 or -7, and the type -8. */
  lemma DefinitionsRead(ctx: Context, id: Int32, attrs: seq<Attr>)
    ensures var key, name, typ := FindSigned(attrs, -3), FindText(attrs, -4), FindUnsigned(attrs, -8);
            Extend(ctx, Compound(-2, attrs)) ==
              if key.None? || name.None? || typ.None? then None
              else var k := ToInt32(key.value);
                   Some(Context(ctx.attrLabels[k := name.value], ctx.attrTypes[k := ToInt32(typ.value)],
                                ctx.chanLabels))
    ensures var key, name := FindSigned(attrs, -6), FindText(attrs, -7);
            Extend(ctx, Compound(-5, attrs)) ==
              if key.None? || name.None? then None
              else Some(Context(ctx.attrLabels, ctx.attrTypes, ctx.chanLabels[ToInt32(key.value) := name.value]))
    ensures id != -2 && id != -5 ==> Extend(ctx, Compound(id, attrs)) == Some(ctx)
  {
    hide FindSigned, FindText, FindUnsigned;
  }

  /** Narrowing to 32 bits keeps the low bits: the result differs by a multiple of 2^32. */
  lemma NarrowMeans(x: int)
    ensures -0x8000_0000 <= ToInt32(x) < 0x8000_0000 && (x - ToInt32(x)) % 0x1_0000_0000 == 0
  {
  }

  // ---------------------------------------------------------------------------
  // Looking attributes up
  // ---------------------------------------------------------------------------

  lemma {:induction false} SelectIndex(attrs: seq<Attr>, id: Int32)
    ensures forall i | 0 <= i < |attrs| && attrs[i].id == id :: attrs[i] in Select(attrs, id)
    ensures forall a | a in Select(attrs, id) :: a.id == id && a in attrs
    ensures forall i, j | 0 <= i < j < |attrs| && attrs[i].id == attrs[j].id == id :: |Select(attrs, id)| >= 2
    decreases |attrs|
  {
    if attrs == [] {
    } else {
      SelectIndex(attrs[1..], id);
    }
  }

  /** An attribute is found if and only if it is the one and only attribute with its ID. */
  lemma FoundExactly(attrs: seq<Attr>, i: nat)
    requires i < |attrs|
    ensures FindOne(attrs, attrs[i].id) == Some(attrs[i]) <==>
              forall j | 0 <= j < |attrs| && j != i :: attrs[j].id != attrs[i].id
  {
    var id := attrs[i].id;
    SelectIndex(attrs, id);
    assert attrs == attrs[..i] + [attrs[i]] + attrs[i + 1..];
    SelectConcat(attrs[..i] + [attrs[i]], attrs[i + 1..], id);
    SelectConcat(attrs[..i], [attrs[i]], id);
    SelectSingle(attrs[i], id);
    if forall j | 0 <= j < |attrs| && j != i :: attrs[j].id != id {
      SelectNone(attrs[..i], id);
      SelectNone(attrs[i + 1..], id);
    }
  }

  lemma NotFound(attrs: seq<Attr>, id: Int32)
    requires forall a | a in attrs :: a.id != id
    ensures FindOne(attrs, id).None?
  {
    SelectNone(attrs, id);
  }

  /** The kind of attribute must be the one asked for as well. */
  lemma FoundByType(attrs: seq<Attr>, id: Int32)
    ensures var a := FindOne(attrs, id);
            && FindSigned(attrs, id) == (if a.Some? && a.value.SignedInt? then Some(a.value.signed) else None)
            && FindUnsigned(attrs, id) == (if a.Some? && a.value.UnsignedInt? then Some(a.value.unsigned) else None)
            && FindText(attrs, id) == (if a.Some? && a.value.Text? then Some(a.value.text) else None)
  {
  }
}
