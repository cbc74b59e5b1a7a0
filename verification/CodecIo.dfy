/** The loops which write and parse attributes and records. */
module CodecIo {
  import opened Octets
  import opened OctetWriters
  import opened OctetReaders
  import opened Base128
  import opened Base128Io
  import opened FixedWidth
  import opened Attributes
  import opened Codec
  import opened Records

  /** The types and labels declared so far in a session. */
  class SessionContext {
    var attrLabels: map<int, seq<Octet>>
    var attrTypes: map<int, int>
    var chanLabels: map<int, seq<Octet>>

    constructor ()
      ensures Value() == EMPTY_CONTEXT
    {
      attrLabels, attrTypes, chanLabels := map[], map[], map[];
    }

    function Value(): Context
      reads this
    {
      Context(attrLabels, attrTypes, chanLabels)
    }

    method HandleAttrDef(subattrs: seq<Attr>) returns (r: Result<()>)
      modifies this
      ensures match DefineAttr(old(Value()), subattrs)
              case Some(c) => r == Ok(()) && Value() == c
              case None => r == Err(Invalid) && Value() == old(Value())
    {
      var id := FindSigned(subattrs, ATTRID_ATTR_ID);
      if id.None? { return Err(Invalid); }
      var name := FindText(subattrs, ATTRID_ATTR_LABEL);
      if name.None? { return Err(Invalid); }
      var typ := FindUnsigned(subattrs, ATTRID_TYPE);
      if typ.None? { return Err(Invalid); }
      attrLabels := attrLabels[ToInt32(id.value) := name.value];
      attrTypes := attrTypes[ToInt32(id.value) := ToInt32(typ.value)];
      r := Ok(());
    }

    method HandleChannelDef(subattrs: seq<Attr>) returns (r: Result<()>)
      modifies this
      ensures match DefineChannel(old(Value()), subattrs)
              case Some(c) => r == Ok(()) && Value() == c
              case None => r == Err(Invalid) && Value() == old(Value())
    {
      var id := FindSigned(subattrs, ATTRID_CHAN_ID);
      if id.None? { return Err(Invalid); }
      var name := FindText(subattrs, ATTRID_CHAN_LABEL);
      if name.None? { return Err(Invalid); }
      chanLabels := chanLabels[ToInt32(id.value) := name.value];
      r := Ok(());
    }
  }

  // ---------------------------------------------------------------------------
  // Writing
  // ---------------------------------------------------------------------------

  method ComputeListLength(attrs: seq<Attr>) returns (len: nat)
    ensures len == ListLength(attrs)
  {
    len := 0;
    var i := 0;
    while i < |attrs|
      invariant 0 <= i <= |attrs|
      invariant len + ListLength(attrs[i..]) == ListLength(attrs)
    {
      var attrLen := ContentLength(attrs[i]);
      len := len + |EncodeSigned(attrs[i].id)| + |EncodeUnsigned(attrLen)| + attrLen;
      assert attrs[i..][1..] == attrs[i + 1..];
      i := i + 1;
    }
  }

  method WriteAttr(a: Attr, dst: OctetWriter)
    requires dst.Valid() && dst.buffer.Length > 0
    requires Writable(a)
    modifies dst, dst.buffer
    ensures dst.Valid()
    ensures dst.Written() == old(dst.Written()) + EncodeAttr(a)
    decreases a, 1
  {
    hide OctetWriter.Written, EncodeSigned, EncodeUnsigned, EncodeContent;
    ghost var before := dst.Written();
    WriteSignedBase128(a.id, dst);
    WriteUnsignedBase128(ContentLength(a), dst);
    WriteContent(a, dst);
    assert dst.Written() == before + EncodeSigned(a.id) + EncodeUnsigned(ContentLength(a)) + EncodeContent(a);
    Append4(before, EncodeSigned(a.id), EncodeUnsigned(ContentLength(a)), EncodeContent(a));
  }

  method WriteContent(a: Attr, dst: OctetWriter)
    requires dst.Valid() && dst.buffer.Length > 0
    requires Writable(a)
    modifies dst, dst.buffer
    ensures dst.Valid()
    ensures dst.Written() == old(dst.Written()) + EncodeContent(a)
    decreases a, 0
  {
    hide OctetWriter.Written, BigEndian, EncodeList, UnsignedWidth, SignedWidth;
    match a {
      case Compound(_, attrs) => WriteList(attrs, dst);
      case UnsignedInt(_, v) => dst.WriteUnsigned(v, UnsignedWidth(v));
      case SignedInt(_, v) => dst.WriteUnsigned(v, SignedWidth(v));
      case Binary(_, bytes) => dst.WriteBlock(bytes);
      case Text(_, text) => dst.WriteBlock(text);
      case Timestamp(_, sec, nsec) =>
        ghost var before := dst.Written();
        dst.WriteUnsigned(ToUInt64(sec), ContentLength(a) - 4);
        dst.WriteUnsigned(nsec, 4);
        Append3(before, BigEndian(ToUInt64(sec), ContentLength(a) - 4), BigEndian(nsec, 4));
      case Boolean(_, flag) => dst.Write(if flag then 1 else 0);
      case Unrecognised(_, raw) => dst.WriteBlock(raw);
    }
  }

  lemma Append4(w: seq<Octet>, x: seq<Octet>, y: seq<Octet>, z: seq<Octet>)
    ensures w + x + y + z == w + (x + y + z)
  {
  }

  /** Every content length fits in 64 bits. */
  ghost predicate Writable(a: Attr)
    decreases a
  {
    && IsUInt64(ContentLength(a))
    && (a.Compound? ==> forall b | b in a.attrs :: Writable(b))
  }

  method WriteList(attrs: seq<Attr>, dst: OctetWriter)
    requires dst.Valid() && dst.buffer.Length > 0
    requires forall b | b in attrs :: Writable(b)
    modifies dst, dst.buffer
    ensures dst.Valid()
    ensures dst.Written() == old(dst.Written()) + EncodeList(attrs)
    decreases attrs, 0
  {
    hide OctetWriter.Written, EncodeAttr, Writable;
    ghost var before := dst.Written();
    var i := 0;
    while i < |attrs|
      invariant 0 <= i <= |attrs|
      invariant dst.Valid()
      invariant dst.Written() + EncodeList(attrs[i..]) == before + EncodeList(attrs)
    {
      ghost var w := dst.Written();
      assert attrs[i] in attrs;
      WriteAttr(attrs[i], dst);
      assert attrs[i..][1..] == attrs[i + 1..];
      Append3(w, EncodeAttr(attrs[i]), EncodeList(attrs[i + 1..]));
      i := i + 1;
    }
    assert attrs[i..] == [];
  }

  lemma Append3(x: seq<Octet>, y: seq<Octet>, z: seq<Octet>)
    ensures x + (y + z) == (x + y) + z
  {
  }

  method WriteRecord(r: Record, dst: OctetWriter)
    requires dst.Valid() && dst.buffer.Length > 0
    requires IsUInt64(ListLength(r.attributes)) && forall b | b in r.attributes :: Writable(b)
    modifies dst, dst.buffer
    ensures dst.Valid()
    ensures dst.Written() == old(dst.Written()) + EncodeRecord(r)
  {
    hide OctetWriter.Written, EncodeSigned, EncodeUnsigned, EncodeList, Writable;
    ghost var before := dst.Written();
    var len := ComputeListLength(r.attributes);
    WriteSignedBase128(r.channel, dst);
    WriteUnsignedBase128(len, dst);
    WriteList(r.attributes, dst);
    assert dst.Written() == before + EncodeRecord(r);
  }

  // ---------------------------------------------------------------------------
  // Parsing
  // ---------------------------------------------------------------------------

  method ParseAttrHeader(src: OctetReader) returns (r: Result<(Int32, nat)>, hdrLen: nat)
    requires src.Valid() && src.buffer.Length > 0
    modifies src, src.buffer
    ensures src.Valid()
    ensures Follows(r, src, ParseHeader(old(src.Remaining())))
    ensures r.Ok? ==> hdrLen + |src.Remaining()| == |old(src.Remaining())|
  {
    hide OctetReader.Remaining, DecodeSigned, DecodeUnsigned;
    hdrLen := 0;
    var id, idLen := ReadSignedBase128(src);
    if id.Err? { return Err(id.error), 0; }
    var len, lenLen := ReadUnsignedBase128(src);
    if len.Err? { return Err(len.error), 0; }
    hdrLen := idLen + lenLen;
    r := Ok((ToInt32(id.value), ToSize(ToInt32(len.value))));
  }

  method ParseLeaf(id: Int32, typ: int, len: nat, src: OctetReader) returns (r: Result<Attr>)
    requires src.Valid() && src.buffer.Length > 0
    requires typ != TYPE_COMPOUND
    modifies src, src.buffer
    ensures src.Valid()
    ensures Follows(r, src, ParseLeafContent(id, typ, len, old(src.Remaining())))
  {
    hide OctetReader.Remaining, DecodeUnsignedFixed, DecodeSignedFixed;
    if typ == TYPE_UNSIGNED {
      if len > 8 { return Err(Invalid); }
      var v := ReadUnsigned(src, len);
      if v.Err? { return Err(v.error); }
      r := Ok(UnsignedInt(id, v.value));
    } else if typ == TYPE_SIGNED {
      if len > 8 { return Err(Invalid); }
      var v := ReadSigned(src, len);
      if v.Err? { return Err(v.error); }
      r := Ok(SignedInt(id, v.value));
    } else if typ == TYPE_TIMESTAMP {
      if len < 5 || len > 12 { return Err(Invalid); }
      var sec := ReadUnsigned(src, len - 4);
      if sec.Err? { return Err(sec.error); }
      var nsec := ReadUnsigned(src, 4);
      if nsec.Err? { return Err(nsec.error); }
      if sec.value >= TWO63 { return Err(Invalid); }
      if nsec.value >= NSEC_LIMIT { return Err(Invalid); }
      r := Ok(Timestamp(id, sec.value, nsec.value));
    } else if typ == TYPE_BOOLEAN {
      if len != 1 { return Err(Invalid); }
      var octet := src.Read();
      if octet.Err? { return Err(octet.error); }
      if octet.value != 0 && octet.value != 1 { return Err(Invalid); }
      r := Ok(Boolean(id, octet.value == 1));
    } else {
      var octets := src.ReadBlock(len);
      if octets.Err? { return Err(octets.error); }
      r := Ok(if typ == TYPE_BINARY then Binary(id, octets.value)
              else if typ == TYPE_STRING then Text(id, octets.value)
              else Unrecognised(id, octets.value));
    }
  }

  /** Parse one attribute, dispatching on the type which the context gives it. */
  method ParseAttr(session: SessionContext, id: Int32, len: nat, src: OctetReader)
    returns (r: Result<Attr>)
    requires src.Valid() && src.buffer.Length > 0
    modifies src, src.buffer
    ensures src.Valid()
    ensures Follows(r, src, ParseContent(session.Value(), id, len, old(src.Remaining())))
    decreases |src.Remaining()|, 2
  {
    hide OctetReader.Remaining, ParseLeafContent, ParseList;
    var typ := AttrType(session.Value(), id);
    match typ {
      case None =>
        r := Err(Invalid);
      case Some(t) =>
        if t == TYPE_COMPOUND {
          var attrs := ParseAttrList(session, len, src);
          r := if attrs.Ok? then Ok(Compound(id, attrs.value)) else Err(attrs.error);
        } else {
          r := ParseLeaf(id, t, len, src);
        }
    }
  }

  /** Parse one attribute with its ID and length. */
  method ParseHeadedAttr(session: SessionContext, src: OctetReader) returns (r: Result<Attr>, used: nat)
    requires src.Valid() && src.buffer.Length > 0
    modifies src, src.buffer
    ensures src.Valid()
    ensures Follows(r, src, ParseOne(session.Value(), old(src.Remaining())))
    ensures r.Ok? ==> used + |src.Remaining()| == |old(src.Remaining())|
    decreases |src.Remaining()|, 0
  {
    hide OctetReader.Remaining, ParseContent, ParseHeader, SessionContext.Value;
    var header, hdrLen := ParseAttrHeader(src);
    if header.Err? { return Err(header.error), 0; }
    var (attrId, attrLen) := header.value;
    r := ParseAttr(session, attrId, attrLen, src);
    used := hdrLen + attrLen;
  }

  /** Parse a list of attributes of a stated total length. */
  method ParseAttrList(session: SessionContext, length: nat, src: OctetReader)
    returns (r: Result<seq<Attr>>)
    requires src.Valid() && src.buffer.Length > 0
    modifies src, src.buffer
    ensures src.Valid()
    ensures Follows(r, src, ParseList(session.Value(), length, old(src.Remaining()), []))
    decreases |src.Remaining()|, 1
  {
    hide OctetReader.Remaining, ParseOne, Insert, SessionContext.Value;
    ghost var ctx := session.Value();
    ghost var start := |src.Remaining()|;
    ghost var goal := ParseList(ctx, length, src.Remaining(), []);
    var attrs: seq<Attr> := [];
    var remaining := length;
    while remaining != 0
      invariant 0 <= remaining
      invariant src.Valid() && session.Value() == ctx
      invariant |src.Remaining()| <= start
      invariant goal == ParseList(ctx, remaining, src.Remaining(), attrs)
      decreases remaining
    {
      var attr, used := ParseHeadedAttr(session, src);
      if attr.Err? { return Err(attr.error); }
      attrs := Insert(attrs, attr.value);
      if used > remaining { return Err(Invalid); }
      remaining := remaining - used;
    }
    r := Ok(attrs);
  }

  /** Let an attribute at the top level of a record take effect on the context. */
  method HandleDefinition(session: SessionContext, a: Attr) returns (r: Result<()>)
    modifies session
    ensures match Extend(old(session.Value()), a)
            case Some(c) => r == Ok(()) && session.Value() == c
            case None => r == Err(Invalid) && session.Value() == old(session.Value())
  {
    r := Ok(());
    if a.id == ATTRID_ATTR_DEF && a.Compound? {
      r := session.HandleAttrDef(a.attrs);
    } else if a.id == ATTRID_CHAN_DEF && a.Compound? {
      r := session.HandleChannelDef(a.attrs);
    }
  }

  /** Parse the attributes of a record, letting its definitions extend the context. */
  method ParseRecordBody(session: SessionContext, length: nat, src: OctetReader)
    returns (r: Result<seq<Attr>>)
    requires src.Valid() && src.buffer.Length > 0
    modifies session, src, src.buffer
    ensures src.Valid()
    ensures session.Value() == ParseRecordAttrs(old(session.Value()), length, old(src.Remaining()), []).ctx
    ensures Follows(r, src, ParseRecordAttrs(old(session.Value()), length, old(src.Remaining()), []).parsed)
  {
    hide OctetReader.Remaining, ParseOne, Insert, Extend, SessionContext.Value;
    ghost var goal := ParseRecordAttrs(session.Value(), length, src.Remaining(), []);
    var attrs: seq<Attr> := [];
    var remaining := length;
    while remaining != 0
      invariant 0 <= remaining
      invariant src.Valid()
      invariant goal == ParseRecordAttrs(session.Value(), remaining, src.Remaining(), attrs)
      decreases remaining
    {
      var attr, used := ParseHeadedAttr(session, src);
      if attr.Err? { return Err(attr.error); }
      var f := HandleDefinition(session, attr.value);
      if f.Err? { return Err(f.error); }
      attrs := Insert(attrs, attr.value);
      if used > remaining { return Err(Invalid); }
      remaining := remaining - used;
    }
    r := Ok(attrs);
  }

  /** Parse a record. */
  method ParseRecordFrom(session: SessionContext, src: OctetReader) returns (r: Result<Record>)
    requires src.Valid() && src.buffer.Length > 0
    modifies session, src, src.buffer
    ensures src.Valid()
    ensures session.Value() == ParseRecord(old(session.Value()), old(src.Remaining())).ctx
    ensures Follows(r, src, ParseRecord(old(session.Value()), old(src.Remaining())).parsed)
  {
    hide OctetReader.Remaining, ParseRecordAttrs, DecodeSigned, DecodeUnsigned, SessionContext.Value;
    var channel, _ := ReadSignedBase128(src);
    if channel.Err? { return Err(channel.error); }
    var len, _ := ReadUnsignedBase128(src);
    if len.Err? { return Err(len.error); }
    var attrs := ParseRecordBody(session, len.value, src);
    r := if attrs.Ok? then Ok(Record(ToInt32(channel.value), attrs.value)) else Err(attrs.error);
  }
}
