/** Parsing records and attribute lists under a context which the record being
    parsed may extend, and the round trip with their encoding. */
module Codec {
  import opened Octets
  import opened OctetWriters
  import opened Base128
  import opened FixedWidth
  import opened Attributes

  const TYPE_COMPOUND: int := 0
  const TYPE_UNSIGNED: int := 1
  const TYPE_SIGNED: int := 2
  const TYPE_BINARY: int := 3
  const TYPE_STRING: int := 4
  const TYPE_TIMESTAMP: int := 5
  const TYPE_BOOLEAN: int := 6

  // ---------------------------------------------------------------------------
  // Session context
  // ---------------------------------------------------------------------------

  /** What a session has declared so far. */
  datatype Context = Context(
    attrLabels: map<int, seq<Octet>>,
    attrTypes: map<int, int>,
    chanLabels: map<int, seq<Octet>>)

  const EMPTY_CONTEXT := Context(map[], map[], map[])

  /** The content types of the reserved attributes. */
  function ReservedType(id: Int32): Option<int> {
    if id in {-1, -8, -10} then Some(TYPE_UNSIGNED)
    else if id in {-2, -5} then Some(TYPE_COMPOUND)
    else if id in {-3, -6} then Some(TYPE_SIGNED)
    else if id in {-4, -7, -9, -12, -13, -15, -17} then Some(TYPE_STRING)
    else if id == -11 then Some(TYPE_TIMESTAMP)
    else if id in {-14, -16, -18} then Some(TYPE_BINARY)
    else None
  }

  function AttrType(ctx: Context, id: Int32): Option<int> {
    if id < 0 then ReservedType(id)
    else if id in ctx.attrTypes then Some(ctx.attrTypes[id]) else None
  }

  function FindSigned(attrs: seq<Attr>, id: Int32): Option<int> {
    match FindOne(attrs, id)
    case Some(SignedInt(_, v)) => Some(v)
    case _ => None
  }

  function FindUnsigned(attrs: seq<Attr>, id: Int32): Option<int> {
    match FindOne(attrs, id)
    case Some(UnsignedInt(_, v)) => Some(v)
    case _ => None
  }

  function FindText(attrs: seq<Attr>, id: Int32): Option<seq<Octet>> {
    match FindOne(attrs, id)
    case Some(Text(_, v)) => Some(v)
    case _ => None
  }

  /** The context after an attribute definition, unless that is incomplete. */
  function DefineAttr(ctx: Context, subattrs: seq<Attr>): Option<Context> {
    var id := FindSigned(subattrs, ATTRID_ATTR_ID);
    var name := FindText(subattrs, ATTRID_ATTR_LABEL);
    var typ := FindUnsigned(subattrs, ATTRID_TYPE);
    if id.None? || name.None? || typ.None? then None
    else Some(ctx.(attrLabels := ctx.attrLabels[ToInt32(id.value) := name.value],
                   attrTypes := ctx.attrTypes[ToInt32(id.value) := ToInt32(typ.value)]))
  }

  /** The context after a channel definition, unless that is incomplete. */
  function DefineChannel(ctx: Context, subattrs: seq<Attr>): Option<Context> {
    var id := FindSigned(subattrs, ATTRID_CHAN_ID);
    var name := FindText(subattrs, ATTRID_CHAN_LABEL);
    if id.None? || name.None? then None
    else Some(ctx.(chanLabels := ctx.chanLabels[ToInt32(id.value) := name.value]))
  }

  /** The context after an attribute at the top level of a record. Only the two kinds
      of definition change it. */
  function Extend(ctx: Context, a: Attr): Option<Context> {
    if a.Compound? && a.id == ATTRID_ATTR_DEF then DefineAttr(ctx, a.attrs)
    else if a.Compound? && a.id == ATTRID_CHAN_DEF then DefineChannel(ctx, a.attrs)
    else Some(ctx)
  }

  // ---------------------------------------------------------------------------
  // Parsing
  // ---------------------------------------------------------------------------

  /** A 32-bit length passed on as an unsigned 64-bit one. */
  function ToSize(x: Int32): nat {
    if x < 0 then x as int + TWO64 else x
  }

  function ParseBytes(len: nat, s: seq<Octet>): Parsed<seq<Octet>> {
    if len <= |s| then Done(s[..len], s[len..]) else Failed(Eof)
  }

  function ParseTimestamp(id: Int32, len: nat, s: seq<Octet>): (p: Parsed<Attr>)
    ensures p.Done? ==> len <= |s| && p.rest == s[len..]
  {
    if len < 5 || len > 12 then Failed(Invalid)
    else
      match DecodeUnsignedFixed(len - 4, s)
      case Failed(e) => Failed(e)
      case Done(sec, t) =>
        match DecodeUnsignedFixed(4, t)
        case Failed(e) => Failed(e)
        case Done(nsec, rest) =>
          if sec >= TWO63 || nsec >= NSEC_LIMIT then Failed(Invalid)
          else Done(Timestamp(id, sec, nsec), rest)
  }

  /** Parse the content of an attribute of any type but a compound one. */
  function ParseLeafContent(id: Int32, typ: int, len: nat, s: seq<Octet>): (p: Parsed<Attr>)
    ensures p.Done? ==> len <= |s| && p.rest == s[len..]
    ensures p.Done? ==> p.value.id == id
  {
    if typ == TYPE_UNSIGNED then
      if len > 8 then Failed(Invalid)
      else match DecodeUnsignedFixed(len, s)
        case Failed(e) => Failed(e)
        case Done(v, rest) => Done(UnsignedInt(id, v), rest)
    else if typ == TYPE_SIGNED then
      if len > 8 then Failed(Invalid)
      else match DecodeSignedFixed(len, s)
        case Failed(e) => Failed(e)
        case Done(v, rest) => Done(SignedInt(id, v), rest)
    else if typ == TYPE_TIMESTAMP then
      ParseTimestamp(id, len, s)
    else if typ == TYPE_BOOLEAN then
      if len != 1 then Failed(Invalid)
      else if s == [] then Failed(Eof)
      else if s[0] > 1 then Failed(Invalid)
      else Done(Boolean(id, s[0] == 1), s[1..])
    else
      match ParseBytes(len, s)
      case Failed(e) => Failed(e)
      case Done(octets, rest) =>
        Done(if typ == TYPE_BINARY then Binary(id, octets)
             else if typ == TYPE_STRING then Text(id, octets)
             else Unrecognised(id, octets), rest)
  }

  /** Parse the content of an attribute, given its ID and length. The type comes from
      the context. The parser stops exactly at the end of the stated length. */
  function ParseContent(ctx: Context, id: Int32, len: nat, s: seq<Octet>): (p: Parsed<Attr>)
    ensures p.Done? ==> len <= |s| && p.rest == s[len..]
    ensures p.Done? ==> p.value.id == id
    decreases |s|, 2
  {
    match AttrType(ctx, id)
    case None => Failed(Invalid)
    case Some(typ) =>
      if typ != TYPE_COMPOUND then ParseLeafContent(id, typ, len, s)
      else
        match ParseList(ctx, len, s, [])
        case Failed(e) => Failed(e)
        case Done(attrs, rest) => Done(Compound(id, attrs), rest)
  }

  /** Parse an attribute ID and length. Both are narrowed to 32 bits. */
  function ParseHeader(s: seq<Octet>): (p: Parsed<(Int32, nat)>)
    ensures p.Done? ==> |p.rest| + 2 <= |s| && p.rest == s[|s| - |p.rest|..]
  {
    match DecodeSigned(s)
    case Failed(e) => Failed(e)
    case Done(id, t) =>
      match DecodeUnsigned(t)
      case Failed(e) => Failed(e)
      case Done(len, body) => Done((ToInt32(id), ToSize(ToInt32(len))), body)
  }

  /** Parse one attribute with its ID and length. */
  function ParseOne(ctx: Context, s: seq<Octet>): (p: Parsed<Attr>)
    ensures p.Done? ==> |p.rest| + 2 <= |s| && p.rest == s[|s| - |p.rest|..]
    decreases |s|, 0
  {
    match ParseHeader(s)
    case Failed(e) => Failed(e)
    case Done((id, len), body) => ParseContent(ctx, id, len, body)
  }

  /** Parse a list of attributes occupying exactly `remaining` octets, inserting each
      into those already parsed. */
  function ParseList(ctx: Context, remaining: nat, s: seq<Octet>, parsed: seq<Attr>)
    : (p: Parsed<seq<Attr>>)
    ensures p.Done? ==> remaining <= |s| && p.rest == s[remaining..]
    decreases |s|, 1
  {
    if remaining == 0 then Done(parsed, s)
    else
      match ParseOne(ctx, s)
      case Failed(e) => Failed(e)
      case Done(a, rest) =>
        var used := |s| - |rest|;
        if used > remaining then Failed(Invalid)
        else
          SuffixOfSuffix(s, used, remaining, rest);
          ParseList(ctx, remaining - used, rest, Insert(parsed, a))
  }

  lemma SuffixOfSuffix(s: seq<Octet>, used: nat, remaining: nat, rest: seq<Octet>)
    requires used <= |s| && rest == s[used..] && used <= remaining
    ensures remaining - used <= |rest| ==> remaining <= |s| && rest[remaining - used..] == s[remaining..]
  {
  }

  datatype Record = Record(channel: Int32, attributes: seq<Attr>) {
    predicate IsEvent() { channel >= 0 }
  }

  /** The result of parsing a record: the context as it was left, and the outcome. */
  datatype Outcome<T> = Outcome(ctx: Context, parsed: Parsed<T>)

  /** Parse the attributes of a record. Each definition takes effect at once, so it
      governs the attributes after it (and stays in effect should a later one fail). */
  function ParseRecordAttrs(ctx: Context, remaining: nat, s: seq<Octet>, parsed: seq<Attr>)
    : Outcome<seq<Attr>>
    decreases |s|
  {
    if remaining == 0 then Outcome(ctx, Done(parsed, s))
    else
      match ParseOne(ctx, s)
      case Failed(e) => Outcome(ctx, Failed(e))
      case Done(a, rest) =>
        match Extend(ctx, a)
        case None => Outcome(ctx, Failed(Invalid))
        case Some(ctx') =>
          var used := |s| - |rest|;
          if used > remaining then Outcome(ctx', Failed(Invalid))
          else ParseRecordAttrs(ctx', remaining - used, rest, Insert(parsed, a))
  }

  /** If it succeeds, the parser of a record's attributes has used up exactly their length. */
  lemma {:induction false} RecordAttrsExact(ctx: Context, remaining: nat, s: seq<Octet>, parsed: seq<Attr>)
    ensures var p := ParseRecordAttrs(ctx, remaining, s, parsed).parsed;
            p.Done? ==> remaining <= |s| && p.rest == s[remaining..]
    decreases |s|
  {
    hide Extend, ParseOne, Insert;
    if remaining == 0 || ParseOne(ctx, s).Failed? {
    } else {
      var a, rest := ParseOne(ctx, s).value, ParseOne(ctx, s).rest;
      var used := |s| - |rest|;
      if Extend(ctx, a).Some? && used <= remaining {
        RecordAttrsExact(Extend(ctx, a).value, remaining - used, rest, Insert(parsed, a));
      }
    }
  }

  function ParseRecord(ctx: Context, s: seq<Octet>): Outcome<Record> {
    match DecodeSigned(s)
    case Failed(e) => Outcome(ctx, Failed(e))
    case Done(channel, t) =>
      match DecodeUnsigned(t)
      case Failed(e) => Outcome(ctx, Failed(e))
      case Done(len, body) =>
        var o := ParseRecordAttrs(ctx, len, body, []);
        match o.parsed
        case Failed(e) => Outcome(o.ctx, Failed(e))
        case Done(attrs, rest) => Outcome(o.ctx, Done(Record(ToInt32(channel), attrs), rest))
  }

  /** Whatever order attributes are received in, a list which has been parsed is in canonical
      order. */
  lemma {:induction false} ParsedListSorted(ctx: Context, remaining: nat, s: seq<Octet>, parsed: seq<Attr>)
    requires Sorted(parsed)
    ensures var p := ParseList(ctx, remaining, s, parsed); p.Done? ==> Sorted(p.value)
    decreases |s|
  {
    hide ParseOne, Insert, Sorted;
    if remaining == 0 || ParseOne(ctx, s).Failed? {
    } else {
      var a, rest := ParseOne(ctx, s).value, ParseOne(ctx, s).rest;
      if |s| - |rest| <= remaining {
        InsertSorted(parsed, a);
        ParsedListSorted(ctx, remaining - (|s| - |rest|), rest, Insert(parsed, a));
      }
    }
  }

  lemma {:induction false} ParsedRecordSorted(ctx: Context, remaining: nat, s: seq<Octet>, parsed: seq<Attr>)
    requires Sorted(parsed)
    ensures var p := ParseRecordAttrs(ctx, remaining, s, parsed).parsed; p.Done? ==> Sorted(p.value)
    decreases |s|
  {
    hide ParseOne, Insert, Sorted, Extend;
    if remaining == 0 || ParseOne(ctx, s).Failed? {
    } else {
      var a, rest := ParseOne(ctx, s).value, ParseOne(ctx, s).rest;
      if Extend(ctx, a).Some? && |s| - |rest| <= remaining {
        InsertSorted(parsed, a);
        ParsedRecordSorted(Extend(ctx, a).value, remaining - (|s| - |rest|), rest, Insert(parsed, a));
      }
    }
  }

  // ---------------------------------------------------------------------------
  // The round trip
  // ---------------------------------------------------------------------------

  /** The content has the type which the context gives its ID. */
  predicate HasType(a: Attr, typ: int) {
    match a
    case Compound(_, _) => typ == TYPE_COMPOUND
    case UnsignedInt(_, _) => typ == TYPE_UNSIGNED
    case SignedInt(_, _) => typ == TYPE_SIGNED
    case Binary(_, _) => typ == TYPE_BINARY
    case Text(_, _) => typ == TYPE_STRING
    case Timestamp(_, _, _) => typ == TYPE_TIMESTAMP
    case Boolean(_, _) => typ == TYPE_BOOLEAN
    case Unrecognised(_, _) => !(0 <= typ <= 6)
  }

  /** An attribute which can be written and read back: its length fits in 32 bits, its
      timestamps are later than the epoch, its sub-attributes are in canonical order, and
      everything in it is of the type declared. */
  ghost predicate Storable(ctx: Context, a: Attr)
    decreases a, 0
  {
    && ContentLength(a) < TWO31
    && AttrType(ctx, a.id).Some? && HasType(a, AttrType(ctx, a.id).value)
    && (a.Timestamp? ==> a.sec > 0)
    && (a.Compound? ==> Sorted(a.attrs) && AllStorable(ctx, a.attrs))
  }

  ghost predicate AllStorable(ctx: Context, attrs: seq<Attr>)
    decreases attrs, 0
  {
    attrs == [] || (Storable(ctx, attrs[0]) && AllStorable(ctx, attrs[1..]))
  }

  /** A header is read back as written exactly if narrowing the length to a signed 32-bit
      integer and widening it again to an unsigned 64-bit one has no effect. */
  lemma HeaderRoundTrip(id: Int32, len: nat, t: seq<Octet>)
    requires IsUInt64(len)
    ensures ParseHeader(EncodeSigned(id) + EncodeUnsigned(len) + t) == Done((id, len), t)
       <==> len < TWO31 || len >= TWO64 - TWO31
  {
    hide EncodeSigned, EncodeUnsigned, DecodeSigned, DecodeUnsigned;
    var e, u := EncodeSigned(id), EncodeUnsigned(len);
    assert e + u + t == e + (u + t);
    SignedRoundTrip(id, u + t);
    UnsignedRoundTrip(len, t);
  }

  lemma TimestampRoundTrip(id: Int32, sec: Int64, nsec: Nanoseconds, t: seq<Octet>)
    ensures ParseTimestamp(id, ContentLength(Timestamp(id, sec, nsec)),
                           EncodeContent(Timestamp(id, sec, nsec)) + t)
         == if sec > 0 then Done(Timestamp(id, sec, nsec), t) else Failed(Invalid)
  {
    hide BigEndian, DecodeFixed, Pow2;
    var u := ToUInt64(sec);
    var w := UnsignedWidth(u);
    var hi, lo := BigEndian(u, w), BigEndian(nsec, 4);
    if sec != 0 {
      WidthAtMostEight(u);
      assert w >= 1;
      assert hi + lo + t == hi + (lo + t);
      UnsignedWidthEnough(u);
      UnsignedFixedRoundTrip(u, w, lo + t);
      Pow2Values();
      UnsignedFixedRoundTrip(nsec, 4, t);
    }
  }

  /** Parsing an encoded attribute gives it back and consumes exactly its octets. */
  lemma {:induction false} ContentRoundTrip(ctx: Context, a: Attr, t: seq<Octet>)
    requires Storable(ctx, a)
    ensures ParseContent(ctx, a.id, ContentLength(a), EncodeContent(a) + t) == Done(a, t)
    decreases a, 0
  {
    hide BigEndian, DecodeFixed, DecodeUnsignedFixed, DecodeSignedFixed, UnsignedWidth,
         SignedWidth, ParseTimestamp, ParseList, Sorted;
    match a
    case Compound(id, attrs) =>
      assert [] + attrs == attrs;
      ListRoundTrip(ctx, [], attrs, t);
    case UnsignedInt(id, v) =>
      WidthAtMostEight(v);
      UnsignedWidthEnough(v);
      UnsignedFixedRoundTrip(v, UnsignedWidth(v), t);
    case SignedInt(id, v) =>
      WidthAtMostEight(v);
      SignedFixedRoundTrip(v, t);
    case Timestamp(id, sec, nsec) =>
      TimestampRoundTrip(id, sec, nsec, t);
    case Boolean(id, flag) =>
    case Binary(id, octets) =>
    case Text(id, octets) =>
    case Unrecognised(id, octets) =>
  }

  lemma OneRoundTrip(ctx: Context, a: Attr, t: seq<Octet>)
    requires Storable(ctx, a)
    ensures ParseOne(ctx, EncodeAttr(a) + t) == Done(a, t)
    ensures |EncodeAttr(a)| == |EncodeSigned(a.id)| + |EncodeUnsigned(ContentLength(a))| + ContentLength(a)
    decreases a, 1
  {
    hide ParseHeader, ParseContent, EncodeContent, EncodeSigned, EncodeUnsigned, ContentLength;
    StorableLength(ctx, a);
    var head := EncodeSigned(a.id) + EncodeUnsigned(ContentLength(a));
    HeaderRoundTrip(a.id, ContentLength(a), EncodeContent(a) + t);
    ContentRoundTrip(ctx, a, t);
    ContentLengthExact(a);
    assert EncodeAttr(a) == head + EncodeContent(a);
    assert EncodeAttr(a) + t == head + (EncodeContent(a) + t);
  }

  lemma StorableLength(ctx: Context, a: Attr)
    requires Storable(ctx, a)
    ensures ContentLength(a) < TWO31
  {
  }

  lemma {:induction false} ListRoundTrip(ctx: Context, parsed: seq<Attr>, attrs: seq<Attr>, t: seq<Octet>)
    requires AllStorable(ctx, attrs) && Sorted(parsed + attrs)
    ensures ParseList(ctx, ListLength(attrs), EncodeList(attrs) + t, parsed)
         == Done(parsed + attrs, t)
    decreases attrs, 0
  {
    hide Sorted, Insert, ParseOne, EncodeAttr, EncodeSigned, EncodeUnsigned, ContentLength, Storable;
    if attrs == [] {
      assert parsed + attrs == parsed;
      assert EncodeList(attrs) + t == t;
    } else {
      var a, more := attrs[0], attrs[1..];
      var rest := EncodeList(more) + t;
      assert EncodeList(attrs) + t == EncodeAttr(a) + rest;
      OneRoundTrip(ctx, a, rest);
      assert attrs == [a] + more;
      SortedParts(parsed, a, more);
      InsertLast(parsed, a);
      assert parsed + attrs == parsed + [a] + more;
      ListRoundTrip(ctx, parsed + [a], more, t);
    }
  }

  lemma SortedParts(parsed: seq<Attr>, a: Attr, more: seq<Attr>)
    requires Sorted(parsed + ([a] + more))
    ensures Sorted(parsed + [a])
  {
    hide OrderKey;
    var all := parsed + ([a] + more);
    assert (parsed + [a]) == all[..|parsed| + 1];
  }
}
