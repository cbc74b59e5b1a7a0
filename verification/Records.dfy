/** Whole records: the round trip, and replay of a stream of records. */
module Records {
  import opened Octets
  import opened Base128
  import opened Attributes
  import opened Codec

  const CHANNEL_SESSION: Int32 := -1
  const CHANNEL_END: Int32 := -2
  const CHANNEL_SYNC: Int32 := -5
  const CHANNEL_SIGNATURE: Int32 := -6

  function EncodeRecord(r: Record): seq<Octet> {
    EncodeSigned(r.channel) + EncodeUnsigned(ListLength(r.attributes)) + EncodeList(r.attributes)
  }

  /** Each attribute can be stored under the context as extended by those before it. */
  ghost predicate StorableUnder(ctx: Context, attrs: seq<Attr>)
    decreases |attrs|
  {
    attrs == [] || (
      && Storable(ctx, attrs[0])
      && Extend(ctx, attrs[0]).Some?
      && StorableUnder(Extend(ctx, attrs[0]).value, attrs[1..]))
  }

  /** The context after all the attributes of a record. */
  ghost function ContextAfter(ctx: Context, attrs: seq<Attr>): Context
    requires StorableUnder(ctx, attrs)
    decreases |attrs|
  {
    if attrs == [] then ctx else ContextAfter(Extend(ctx, attrs[0]).value, attrs[1..])
  }

  /** Attributes none of which is a definition leave the context as it was. */
  lemma {:induction false} WithoutDefinitions(ctx: Context, attrs: seq<Attr>)
    requires forall a | a in attrs :: Storable(ctx, a) && a.id != ATTRID_ATTR_DEF && a.id != ATTRID_CHAN_DEF
    ensures StorableUnder(ctx, attrs) && ContextAfter(ctx, attrs) == ctx
    decreases |attrs|
  {
    hide Storable;
    if attrs == [] {
    } else {
      assert attrs[0] in attrs;
      WithoutDefinitions(ctx, attrs[1..]);
    }
  }

  ghost predicate StorableRecord(ctx: Context, r: Record) {
    && Sorted(r.attributes)
    && StorableUnder(ctx, r.attributes)
    && IsUInt64(ListLength(r.attributes))
  }

  lemma {:induction false} RecordAttrsRoundTrip(
    ctx: Context, parsed: seq<Attr>, attrs: seq<Attr>, t: seq<Octet>)
    requires StorableUnder(ctx, attrs) && Sorted(parsed + attrs)
    ensures ParseRecordAttrs(ctx, ListLength(attrs), EncodeList(attrs) + t, parsed)
         == Outcome(ContextAfter(ctx, attrs), Done(parsed + attrs, t))
    decreases attrs
  {
    hide Sorted, Insert, ParseOne, EncodeAttr, EncodeSigned, EncodeUnsigned, ContentLength, Storable, Extend;
    if attrs == [] {
      assert parsed + attrs == parsed;
      assert EncodeList(attrs) + t == t;
    } else {
      var a, more := attrs[0], attrs[1..];
      var rest := EncodeList(more) + t;
      assert EncodeList(attrs) + t == EncodeAttr(a) + rest;
      OneRoundTrip(ctx, a, rest);
      assert attrs == [a] + more;
      SortedParts(parsed, a, more);
      InsertLast(parsed, a);
      assert parsed + attrs == parsed + [a] + more;
      RecordAttrsRoundTrip(Extend(ctx, a).value, parsed + [a], more, t);
    }
  }

  /** Parsing the octets of a storable record gives back an equal record, leaves the
      reader exactly at its end, and leaves the context as its definitions make it. */
  lemma RecordRoundTrip(ctx: Context, r: Record, t: seq<Octet>)
    requires StorableRecord(ctx, r)
    ensures ParseRecord(ctx, EncodeRecord(r) + t)
         == Outcome(ContextAfter(ctx, r.attributes), Done(r, t))
  {
    hide EncodeSigned, EncodeUnsigned, EncodeList, ListLength, ParseRecordAttrs, Sorted, StorableUnder;
    var e, u, l := EncodeSigned(r.channel), EncodeUnsigned(ListLength(r.attributes)), EncodeList(r.attributes);
    assert EncodeRecord(r) + t == e + (u + (l + t));
    SignedRoundTrip(r.channel, u + (l + t));
    UnsignedRoundTrip(ListLength(r.attributes), l + t);
    assert [] + r.attributes == r.attributes;
    RecordAttrsRoundTrip(ctx, [], r.attributes, t);
  }

  /** Two records storable in one context have the same octets only if they are equal. */
  lemma EncodeRecordInjective(ctx: Context, r1: Record, r2: Record)
    requires StorableRecord(ctx, r1) && StorableRecord(ctx, r2)
    requires EncodeRecord(r1) == EncodeRecord(r2)
    ensures r1 == r2
  {
    RecordRoundTrip(ctx, r1, []);
    RecordRoundTrip(ctx, r2, []);
  }

  lemma RecordLengthPositive(r: Record)
    ensures |EncodeRecord(r)| >= 2
  {
  }

  lemma {:induction false} ParseRecordConsumes(ctx: Context, s: seq<Octet>)
    ensures var p := ParseRecord(ctx, s).parsed; p.Done? ==> |p.rest| < |s|
  {
    hide ParseRecordAttrs;
    if DecodeSigned(s).Done? {
      var t := DecodeSigned(s).rest;
      if DecodeUnsigned(t).Done? {
        RecordAttrsExact(ctx, DecodeUnsigned(t).value, DecodeUnsigned(t).rest, []);
      }
    }
  }

  /** Parse records until the end of the stream. */
  function ParseAll(ctx: Context, s: seq<Octet>): (o: Outcome<seq<Record>>)
    decreases |s|
  {
    if s == [] then Outcome(ctx, Done([], []))
    else
      var o := ParseRecord(ctx, s);
      match o.parsed
      case Failed(e) => Outcome(o.ctx, Failed(e))
      case Done(r, rest) =>
        ParseRecordConsumes(ctx, s);
        var more := ParseAll(o.ctx, rest);
        match more.parsed
        case Failed(e) => Outcome(more.ctx, Failed(e))
        case Done(rs, rest') => Outcome(more.ctx, Done([r] + rs, rest'))
  }

  function EncodeRecords(rs: seq<Record>): seq<Octet> {
    if rs == [] then [] else EncodeRecord(rs[0]) + EncodeRecords(rs[1..])
  }

  /** Every record can be stored under the context left by those before it. */
  ghost predicate StorableRecords(ctx: Context, rs: seq<Record>)
    decreases |rs|
  {
    rs == [] || (
      && StorableRecord(ctx, rs[0])
      && StorableRecords(ContextAfter(ctx, rs[0].attributes), rs[1..]))
  }

  ghost function ContextAfterAll(ctx: Context, rs: seq<Record>): Context
    requires StorableRecords(ctx, rs)
    decreases |rs|
  {
    if rs == [] then ctx else ContextAfterAll(ContextAfter(ctx, rs[0].attributes), rs[1..])
  }

  /** Replaying a file of records gives back the records which were written to it. */
  lemma {:induction false} ReplayRoundTrip(ctx: Context, rs: seq<Record>)
    requires StorableRecords(ctx, rs)
    ensures ParseAll(ctx, EncodeRecords(rs)) == Outcome(ContextAfterAll(ctx, rs), Done(rs, []))
    decreases |rs|
  {
    hide StorableRecord, ParseRecord, EncodeRecord;
    if rs == [] {
    } else {
      var t := EncodeRecords(rs[1..]);
      RecordRoundTrip(ctx, rs[0], t);
      RecordLengthPositive(rs[0]);
      StorableParts(ctx, rs[0]);
      ReplayRoundTrip(ContextAfter(ctx, rs[0].attributes), rs[1..]);
      assert [rs[0]] + rs[1..] == rs;
    }
  }

  lemma StorableParts(ctx: Context, r: Record)
    requires StorableRecord(ctx, r)
    ensures StorableUnder(ctx, r.attributes)
  {
  }
}
