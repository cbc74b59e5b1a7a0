/** Building session records, and why they describe themselves. */
module SessionBuilders {
  import opened Octets
  import opened Attributes
  import opened Base128
  import opened FixedWidth
  import opened Codec
  import opened Records

  const ATTRID_HASH_ALG: Int32 := -15
  const ATTRID_SIG_ALG: Int32 := -17
  const ATTRID_SIG_PUBKEY: Int32 := -18

  datatype AttrDecl = AttrDecl(name: seq<Octet>, typ: Int32)
  datatype ChanDecl = ChanDecl(name: seq<Octet>, subattrs: seq<Attr>)

  /** The sub-attributes of an attribute definition. */
  function AttrDefContent(id: Int32, decl: AttrDecl): seq<Attr> {
    Insert(Insert(Insert([],
      SignedInt(ATTRID_ATTR_ID, id)),
      Text(ATTRID_ATTR_LABEL, decl.name)),
      UnsignedInt(ATTRID_TYPE, ToUInt64(decl.typ)))
  }

  /** The sub-attributes of a channel definition. */
  function ChanDefContent(id: Int32, decl: ChanDecl): seq<Attr> {
    Insert(Insert(decl.subattrs, SignedInt(ATTRID_CHAN_ID, id)), Text(ATTRID_CHAN_LABEL, decl.name))
  }

  // ---------------------------------------------------------------------------
  // The content of the attribute list
  // ---------------------------------------------------------------------------

  /** A reserved attribute which does not depend on the context. */
  predicate IsPlain(a: Attr) { !a.Compound? && a.id < 0 }

  function AttrDefs(decls: seq<AttrDecl>): (r: seq<Attr>)
    requires |decls| < TWO31
    ensures |r| == |decls|
    ensures forall i :: 0 <= i < |r| ==> r[i] == Compound(ATTRID_ATTR_DEF, AttrDefContent(i, decls[i]))
  {
    seq(|decls|, i requires 0 <= i < |decls| => Compound(ATTRID_ATTR_DEF, AttrDefContent(i, decls[i])))
  }

  function ChanDefs(decls: seq<ChanDecl>): (r: seq<Attr>)
    requires |decls| < TWO31
    ensures |r| == |decls|
    ensures forall i :: 0 <= i < |r| ==> r[i] == Compound(ATTRID_CHAN_DEF, ChanDefContent(i, decls[i]))
  {
    seq(|decls|, i requires 0 <= i < |decls| => Compound(ATTRID_CHAN_DEF, ChanDefContent(i, decls[i])))
  }

  /** The list is the protocol version if any, then every attribute definition, then every
      channel definition, then the other reserved attributes. */
  ghost predicate Holds(list: seq<Attr>, pre: seq<Attr>, attrDecls: seq<AttrDecl>,
                        chanDecls: seq<ChanDecl>, post: seq<Attr>)
  {
    && |attrDecls| < TWO31 && |chanDecls| < TWO31
    && list == pre + AttrDefs(attrDecls) + ChanDefs(chanDecls) + post
    && (forall a | a in pre :: a.id == ATTRID_PROTOCOL && IsPlain(a))
    && (forall a | a in post :: a.id < ATTRID_CHAN_DEF && IsPlain(a))
    && Sorted(post)
  }

  lemma HoldsInitially(pre: seq<Attr>)
    requires forall a | a in pre :: a.id == ATTRID_PROTOCOL && IsPlain(a)
    ensures Holds(pre, pre, [], [], [])
  {
    hide IsPlain;
    assert pre + AttrDefs([]) + ChanDefs([]) + [] == pre;
  }

  lemma {:induction false} UpperBoundUnique(attrs: seq<Attr>, id: Int32, k: nat)
    requires k <= |attrs|
    requires forall i :: 0 <= i < k ==> !AttridLess(id, attrs[i].id)
    requires k < |attrs| ==> AttridLess(id, attrs[k].id)
    ensures UpperBound(attrs, id) == k
    decreases k
  {
    hide OrderKey;
    if k == 0 {
    } else {
      UpperBoundUnique(attrs[1..], id, k - 1);
    }
  }

  lemma InsertAt(l: seq<Attr>, r: seq<Attr>, a: Attr)
    requires forall b | b in l :: !AttridLess(a.id, b.id)
    requires forall b | b in r :: AttridLess(a.id, b.id)
    ensures Insert(l + r, a) == l + [a] + r
  {
    hide OrderKey, AttridLess;
    forall i | 0 <= i < |l|
      ensures !AttridLess(a.id, (l + r)[i].id)
    {
      assert (l + r)[i] in l;
    }
    if r != [] {
      assert (l + r)[|l|] in r;
    }
    UpperBoundUnique(l + r, a.id, |l|);
    assert (l + r)[..|l|] == l && (l + r)[|l|..] == r;
  }

  lemma LessByValue(lhs: Int32, rhs: Int32)
    requires lhs < 0
    ensures AttridLess(lhs, rhs) <==> rhs < lhs || rhs >= 0
  {
    AttridLessMeans(lhs, rhs);
  }

  lemma NoneAfter(l: seq<Attr>, id: Int32)
    requires id < 0 && forall b | b in l :: id <= b.id < 0
    ensures forall b | b in l :: !AttridLess(id, b.id)
  {
    hide AttridLess;
    forall b | b in l ensures !AttridLess(id, b.id) { LessByValue(id, b.id); }
  }

  lemma AllAfter(r: seq<Attr>, id: Int32)
    requires id < 0 && forall b | b in r :: b.id < id
    ensures forall b | b in r :: AttridLess(id, b.id)
  {
    hide AttridLess;
    forall b | b in r ensures AttridLess(id, b.id) { LessByValue(id, b.id); }
  }

  lemma HoldsInsertAttrDef(list: seq<Attr>, pre: seq<Attr>, attrDecls: seq<AttrDecl>,
                           chanDecls: seq<ChanDecl>, post: seq<Attr>, decl: AttrDecl)
    requires Holds(list, pre, attrDecls, chanDecls, post) && |attrDecls| + 1 < TWO31
    ensures Holds(Insert(list, Compound(ATTRID_ATTR_DEF, AttrDefContent(|attrDecls|, decl))),
                  pre, attrDecls + [decl], chanDecls, post)
  {
    hide AttridLess, Insert, Sorted, IsPlain, AttrDefContent, ChanDefContent;
    var a := Compound(ATTRID_ATTR_DEF, AttrDefContent(|attrDecls|, decl));
    var l, r := pre + AttrDefs(attrDecls), ChanDefs(chanDecls) + post;
    assert list == l + r;
    NoneAfter(l, a.id);
    AllAfter(r, a.id);
    InsertAt(l, r, a);
    assert AttrDefs(attrDecls + [decl]) == AttrDefs(attrDecls) + [a];
  }

  lemma HoldsInsertChanDef(list: seq<Attr>, pre: seq<Attr>, attrDecls: seq<AttrDecl>,
                           chanDecls: seq<ChanDecl>, post: seq<Attr>, decl: ChanDecl)
    requires Holds(list, pre, attrDecls, chanDecls, post) && |chanDecls| + 1 < TWO31
    ensures Holds(Insert(list, Compound(ATTRID_CHAN_DEF, ChanDefContent(|chanDecls|, decl))),
                  pre, attrDecls, chanDecls + [decl], post)
  {
    hide AttridLess, Insert, Sorted, IsPlain, AttrDefContent, ChanDefContent;
    var a := Compound(ATTRID_CHAN_DEF, ChanDefContent(|chanDecls|, decl));
    var l, r := pre + AttrDefs(attrDecls) + ChanDefs(chanDecls), post;
    NoneAfter(l, a.id);
    AllAfter(r, a.id);
    InsertAt(l, r, a);
    assert ChanDefs(chanDecls + [decl]) == ChanDefs(chanDecls) + [a];
  }

  lemma InsertMiddle(l: seq<Attr>, post: seq<Attr>, a: Attr)
    requires Sorted(post)
    requires forall b | b in l :: !AttridLess(a.id, b.id)
    ensures Insert(l + post, a) == l + Insert(post, a)
  {
    hide AttridLess, Sorted, OrderKey, UpperBound;
    var k := UpperBound(post, a.id);
    assert l + post == (l + post[..k]) + post[k..];
    PostSplit(post, a.id);
    InsertAt(l + post[..k], post[k..], a);
  }

  lemma HoldsInsertPost(list: seq<Attr>, pre: seq<Attr>, attrDecls: seq<AttrDecl>,
                        chanDecls: seq<ChanDecl>, post: seq<Attr>, a: Attr)
    requires Holds(list, pre, attrDecls, chanDecls, post)
    requires IsPlain(a) && a.id < ATTRID_CHAN_DEF
    ensures Holds(Insert(list, a), pre, attrDecls, chanDecls, Insert(post, a))
  {
    hide AttridLess, Sorted, IsPlain, Insert, AttrDefContent, ChanDefContent;
    var l := pre + AttrDefs(attrDecls) + ChanDefs(chanDecls);
    NoneAfter(l, a.id);
    InsertMiddle(l, post, a);
    InsertSorted(post, a);
    forall b | b in Insert(post, a)
      ensures b.id < ATTRID_CHAN_DEF && IsPlain(b)
    {
      InsertMembers(post, a);
    }
  }

  lemma HoldsStart(protocol: Option<UInt64>, pre: seq<Attr>, a: Attr, b: Attr, c: Attr)
    requires pre == if protocol.Some? then [UnsignedInt(ATTRID_PROTOCOL, protocol.value)] else []
    requires a.Text? && a.id == ATTRID_TIME_SYSTEM && b.Text? && b.id == ATTRID_SOURCE
    requires c.Timestamp? && c.id == ATTRID_TS
    ensures Holds(Insert(Insert(Insert(pre, a), b), c), pre, [], [], Insert(Insert(Insert([], a), b), c))
  {
    assert forall x | x in pre :: x.id == ATTRID_PROTOCOL && IsPlain(x);
    hide Holds, Insert, IsPlain;
    HoldsInitially(pre);
    HoldsInsertPost(pre, pre, [], [], [], a);
    HoldsInsertPost(Insert(pre, a), pre, [], [], Insert([], a), b);
    HoldsInsertPost(Insert(Insert(pre, a), b), pre, [], [], Insert(Insert([], a), b), c);
  }

  lemma PostSplit(post: seq<Attr>, id: Int32)
    requires Sorted(post)
    ensures forall b | b in post[..UpperBound(post, id)] :: !AttridLess(id, b.id)
    ensures forall b | b in post[UpperBound(post, id)..] :: AttridLess(id, b.id)
  {
    hide OrderKey, UpperBound, Sorted;
    forall b | b in post[UpperBound(post, id)..]
      ensures AttridLess(id, b.id)
    {
      var i :| UpperBound(post, id) <= i < |post| && post[i] == b;
      UpperBoundSplits(post, id, i);
    }
  }

  // ---------------------------------------------------------------------------
  // What the record declares
  // ---------------------------------------------------------------------------

  /** The context with exactly the declarations made. */
  ghost function Declared(attrDecls: seq<AttrDecl>, chanDecls: seq<ChanDecl>): Context {
    Context(map i: int | 0 <= i < |attrDecls| :: attrDecls[i].name,
            map i: int | 0 <= i < |attrDecls| :: attrDecls[i].typ,
            map i: int | 0 <= i < |chanDecls| :: chanDecls[i].name)
  }

  /** Each definition is short enough, and the sub-attributes given for channels are in
      order, have the declared types, and leave the channel's ID and label to the builder. */
  ghost predicate Storables(attrDecls: seq<AttrDecl>, chanDecls: seq<ChanDecl>) {
    && (forall i: nat | i < |attrDecls| :: |attrDecls[i].name| < TWO31 - 100)
    && (forall i: nat | i < |chanDecls| < TWO31 ::
          && Sorted(chanDecls[i].subattrs)
          && AllStorable(Declared(attrDecls, []), chanDecls[i].subattrs)
          && Select(chanDecls[i].subattrs, ATTRID_CHAN_ID) == []
          && Select(chanDecls[i].subattrs, ATTRID_CHAN_LABEL) == []
          && |chanDecls[i].name| < TWO31
          && ListLength(ChanDefContent(i, chanDecls[i])) < TWO31)
  }

  lemma {:induction false} StorableUnderAppend(ctx: Context, l: seq<Attr>, r: seq<Attr>)
    requires StorableUnder(ctx, l) && StorableUnder(ContextAfter(ctx, l), r)
    ensures StorableUnder(ctx, l + r)
    ensures ContextAfter(ctx, l + r) == ContextAfter(ContextAfter(ctx, l), r)
    decreases |l|
  {
    hide Storable, Extend;
    if l == [] {
      assert l + r == r;
    } else {
      assert (l + r)[1..] == l[1..] + r;
      StorableUnderAppend(Extend(ctx, l[0]).value, l[1..], r);
    }
  }

  /** The reserved attributes can be stored: lengths are below 2^31, and times after the epoch. */
  ghost predicate ReservedStorable(list: seq<Attr>) {
    forall a | a in list && !a.Compound? :: Storable(EMPTY_CONTEXT, a)
  }

  lemma PlainStorable(ctx: Context, list: seq<Attr>)
    requires forall a | a in list :: IsPlain(a) && Storable(EMPTY_CONTEXT, a)
    requires forall a | a in list :: a.id != ATTRID_ATTR_DEF && a.id != ATTRID_CHAN_DEF
    ensures StorableUnder(ctx, list) && ContextAfter(ctx, list) == ctx
  {
    forall a | a in list
      ensures Storable(ctx, a)
    {
      assert IsPlain(a);
    }
    WithoutDefinitions(ctx, list);
  }

  lemma {:induction false} UnsignedLeadLength(v: nat, n: nat)
    requires v < Pow2(7 * n)
    ensures |UnsignedLead(v)| <= n
    decreases n
  {
    if v == 0 {
    } else {
      assert n > 0;
      assert 7 * (n - 1) + 7 == 7 * n;
      Pow2By7(7 * (n - 1));
      UnsignedLeadLength(v / 128, n - 1);
    }
  }

  lemma ShortLength(v: nat)
    requires v < TWO31
    ensures |EncodeUnsigned(v)| <= 5
  {
    Pow2Values();
    assert Pow2(35) == 8 * Pow2(32);
    UnsignedLeadLength(v, 5);
    UnsignedLeadLength(v / 128, 4) by {
      assert Pow2(32) == 16 * Pow2(28);
    }
  }

  lemma AttrDefContentIs(id: Int32, decl: AttrDecl)
    ensures AttrDefContent(id, decl) == [SignedInt(ATTRID_ATTR_ID, id), Text(ATTRID_ATTR_LABEL, decl.name),
                                         UnsignedInt(ATTRID_TYPE, ToUInt64(decl.typ))]
    ensures Sorted(AttrDefContent(id, decl))
  {
    hide AttridLess, OrderKey, Sorted, Insert;
    var a, b, c := SignedInt(ATTRID_ATTR_ID, id), Text(ATTRID_ATTR_LABEL, decl.name),
                   UnsignedInt(ATTRID_TYPE, ToUInt64(decl.typ));
    InsertFirst(a);
    InsertBehind([a], b);
    assert [a] + [b] == [a, b];
    InsertBehind([a, b], c);
    assert [a, b] + [c] == [a, b, c];
  }

  /** What a definition made by the builder states, in terms of the IDs of sub-attributes: -3, -4 and -8
      for an attribute; -6 and -7 for a channel, besides the sub-attributes given. */
  lemma DefinitionsState(id: Int32, attrDecl: AttrDecl, chanDecl: ChanDecl, key: Int32)
    requires Sorted(chanDecl.subattrs)
    ensures Select(AttrDefContent(id, attrDecl), key) ==
              if key == -3 then [SignedInt(-3, id)]
              else if key == -4 then [Text(-4, attrDecl.name)]
              else if key == -8 then [UnsignedInt(-8, (attrDecl.typ + TWO64) % TWO64)] else []
    ensures Select(ChanDefContent(id, chanDecl), key) ==
              Select(chanDecl.subattrs, key) +
                if key == -6 then [SignedInt(-6, id)] else if key == -7 then [Text(-7, chanDecl.name)] else []
  {
    hide Insert, Select, Sorted, AttrDefContent;
    var a, b, c := SignedInt(ATTRID_ATTR_ID, id), Text(ATTRID_ATTR_LABEL, attrDecl.name),
                   UnsignedInt(ATTRID_TYPE, ToUInt64(attrDecl.typ));
    AttrDefContentIs(id, attrDecl);
    SelectThree(a, b, c, key);
    var d, e := SignedInt(ATTRID_CHAN_ID, id), Text(ATTRID_CHAN_LABEL, chanDecl.name);
    InsertSorted(chanDecl.subattrs, d);
    InsertStable(chanDecl.subattrs, d, key);
    InsertStable(Insert(chanDecl.subattrs, d), e, key);
  }

  lemma InsertFirst(a: Attr)
    ensures Insert([], a) == [a] && Sorted([a])
  {
  }

  lemma InsertBehind(l: seq<Attr>, a: Attr)
    requires Sorted(l) && a.id < 0 && forall b | b in l :: a.id <= b.id < 0
    ensures Insert(l, a) == l + [a] && Sorted(l + [a])
  {
    hide AttridLess, OrderKey, Sorted, Insert;
    var e: seq<Attr> := [];
    NoneAfter(l, a.id);
    assert l + e == l && l + [a] + e == l + [a];
    InsertAt(l, e, a);
    InsertSorted(l, a);
  }

  lemma SelectThree(a: Attr, b: Attr, c: Attr, id: Int32)
    ensures Select([a, b, c], id) == (if a.id == id then [a] else []) + (if b.id == id then [b] else [])
                                   + (if c.id == id then [c] else [])
  {
    assert [a, b, c] == [a] + [b] + [c];
    SelectConcat([a] + [b], [c], id);
    SelectConcat([a], [b], id);
    SelectSingle(a, id);
    SelectSingle(b, id);
    SelectSingle(c, id);
  }

  lemma ListOfThree(ctx: Context, a: Attr, b: Attr, c: Attr)
    ensures ListLength([a, b, c]) == HeadedLength(a) + HeadedLength(b) + HeadedLength(c)
    ensures AllStorable(ctx, [a, b, c]) <==> Storable(ctx, a) && Storable(ctx, b) && Storable(ctx, c)
  {
    hide ContentLength, EncodeSigned, EncodeUnsigned, Storable;
    assert [a, b, c][1..] == [b, c] && [b, c][1..] == [c] && [c][1..] == [];
    assert ListLength([c]) == HeadedLength(c);
    assert ListLength([b, c]) == HeadedLength(b) + ListLength([c]);
    assert AllStorable(ctx, [c]) <==> Storable(ctx, c);
    assert AllStorable(ctx, [b, c]) <==> Storable(ctx, b) && AllStorable(ctx, [c]);
  }

  /** The octets of an attribute with its ID and length. */
  function HeadedLength(a: Attr): nat {
    |EncodeSigned(a.id)| + |EncodeUnsigned(ContentLength(a))| + ContentLength(a)
  }

  lemma AttrDefParts(ctx: Context, id: Int32, decl: AttrDecl)
    requires |decl.name| < TWO31 - 100
    ensures Storable(ctx, SignedInt(ATTRID_ATTR_ID, id)) && HeadedLength(SignedInt(ATTRID_ATTR_ID, id)) <= 14
    ensures Storable(ctx, Text(ATTRID_ATTR_LABEL, decl.name))
    ensures HeadedLength(Text(ATTRID_ATTR_LABEL, decl.name)) <= 6 + |decl.name|
    ensures Storable(ctx, UnsignedInt(ATTRID_TYPE, ToUInt64(decl.typ)))
    ensures HeadedLength(UnsignedInt(ATTRID_TYPE, ToUInt64(decl.typ))) <= 14
  {
    hide UnsignedWidth, SignedWidth;
    WidthAtMostEight(id);
    WidthAtMostEight(ToUInt64(decl.typ));
    ShortLength(SignedWidth(id));
    ShortLength(UnsignedWidth(ToUInt64(decl.typ)));
    ShortLength(|decl.name|);
  }

  /** An attribute definition can be stored, and declares exactly what it was given. */
  lemma AttrDefStorable(ctx: Context, id: Int32, decl: AttrDecl)
    requires |decl.name| < TWO31 - 100
    ensures Storable(ctx, Compound(ATTRID_ATTR_DEF, AttrDefContent(id, decl)))
    ensures Extend(ctx, Compound(ATTRID_ATTR_DEF, AttrDefContent(id, decl)))
         == Some(ctx.(attrLabels := ctx.attrLabels[id as int := decl.name],
                      attrTypes := ctx.attrTypes[id as int := decl.typ as int]))
  {
    hide Sorted, Select, AttrDefContent, HeadedLength, AllStorable;
    var a, b, c := SignedInt(ATTRID_ATTR_ID, id), Text(ATTRID_ATTR_LABEL, decl.name),
                   UnsignedInt(ATTRID_TYPE, ToUInt64(decl.typ));
    AttrDefContentIs(id, decl);
    AttrDefParts(ctx, id, decl);
    ListOfThree(ctx, a, b, c);
    SelectThree(a, b, c, ATTRID_ATTR_ID);
    SelectThree(a, b, c, ATTRID_ATTR_LABEL);
    SelectThree(a, b, c, ATTRID_TYPE);
    NarrowWidened(decl.typ);
  }

  /** A 32-bit type survives being stored as an unsigned 64-bit integer. */
  lemma NarrowWidened(x: Int32)
    ensures ToInt32(ToUInt64(x)) == x
  {
    assert (x + TWO64) % TWO32 == x % TWO32;
  }

  lemma {:induction false} AttrDefsStorable(decls: seq<AttrDecl>)
    requires |decls| < TWO31
    requires forall i: nat | i < |decls| :: |decls[i].name| < TWO31 - 100
    ensures StorableUnder(EMPTY_CONTEXT, AttrDefs(decls))
    ensures ContextAfter(EMPTY_CONTEXT, AttrDefs(decls)) == Declared(decls, [])
    decreases |decls|
  {
    hide Storable, Extend, AttrDefContent, Declared;
    var n := |decls| - 1;
    if n >= 0 {
      var front, ctx := decls[..n], Declared(decls[..n], []);
      AttrDefsStorable(front);
      var last := Compound(ATTRID_ATTR_DEF, AttrDefContent(n, decls[n]));
      AttrDefStorable(ctx, n, decls[n]);
      assert AttrDefs(decls) == AttrDefs(front) + [last];
      SingleStorable(ctx, last);
      StorableUnderAppend(EMPTY_CONTEXT, AttrDefs(front), [last]);
      DeclaredAttr(decls, n);
    } else {
      assert AttrDefs(decls) == [];
      assert Declared(decls, []) == EMPTY_CONTEXT by { DeclaredNothing(decls); }
    }
  }

  lemma DeclaredNothing(decls: seq<AttrDecl>)
    requires decls == []
    ensures Declared(decls, []) == EMPTY_CONTEXT
  {
  }

  lemma DeclaredAttr(decls: seq<AttrDecl>, n: nat)
    requires n + 1 == |decls|
    ensures var c := Declared(decls[..n], []);
            Declared(decls, []) == c.(attrLabels := c.attrLabels[n := decls[n].name],
                                      attrTypes := c.attrTypes[n := decls[n].typ as int])
  {
    var c := Declared(decls[..n], []);
    assert Declared(decls, []).attrLabels == c.attrLabels[n := decls[n].name];
    assert Declared(decls, []).attrTypes == c.attrTypes[n := decls[n].typ as int];
  }

  lemma SingleStorable(ctx: Context, a: Attr)
    requires Storable(ctx, a) && Extend(ctx, a).Some?
    ensures StorableUnder(ctx, [a]) && ContextAfter(ctx, [a]) == Extend(ctx, a).value
  {
    assert [a][1..] == [];
  }

  lemma {:induction false} StorableByTypes(c1: Context, c2: Context, a: Attr)
    requires c1.attrTypes == c2.attrTypes
    ensures Storable(c1, a) <==> Storable(c2, a)
    decreases a, 0
  {
    if a.Compound? {
      AllStorableByTypes(c1, c2, a.attrs);
    }
  }

  lemma {:induction false} AllStorableByTypes(c1: Context, c2: Context, attrs: seq<Attr>)
    requires c1.attrTypes == c2.attrTypes
    ensures AllStorable(c1, attrs) <==> AllStorable(c2, attrs)
    decreases attrs, 0
  {
    if attrs == [] {
    } else {
      StorableByTypes(c1, c2, attrs[0]);
      AllStorableByTypes(c1, c2, attrs[1..]);
    }
  }

  lemma {:induction false} AllStorableForall(ctx: Context, attrs: seq<Attr>)
    ensures AllStorable(ctx, attrs) <==> forall a | a in attrs :: Storable(ctx, a)
    decreases |attrs|
  {
    hide Storable;
    if attrs == [] {
    } else {
      AllStorableForall(ctx, attrs[1..]);
      if AllStorable(ctx, attrs) {
        forall a | a in attrs ensures Storable(ctx, a) {
          assert a == attrs[0] || a in attrs[1..];
        }
      } else if Storable(ctx, attrs[0]) {
        var a :| a in attrs[1..] && !Storable(ctx, a);
        assert a in attrs;
      } else {
        assert attrs[0] in attrs;
      }
    }
  }

  lemma AllStorableInsert(ctx: Context, attrs: seq<Attr>, a: Attr)
    requires AllStorable(ctx, attrs) && Storable(ctx, a) && Sorted(attrs)
    ensures AllStorable(ctx, Insert(attrs, a)) && Sorted(Insert(attrs, a))
  {
    hide Storable, UpperBound, Sorted, AllStorable;
    AllStorableForall(ctx, attrs);
    AllStorableForall(ctx, Insert(attrs, a));
    InsertSorted(attrs, a);
  }

  /** A channel definition can be stored, and declares exactly what it was given. */
  lemma ChanDefStorable(ctx: Context, id: Int32, decl: ChanDecl)
    requires Sorted(decl.subattrs) && AllStorable(ctx, decl.subattrs)
    requires Select(decl.subattrs, ATTRID_CHAN_ID) == [] && Select(decl.subattrs, ATTRID_CHAN_LABEL) == []
    requires |decl.name| < TWO31 && ListLength(ChanDefContent(id, decl)) < TWO31
    ensures Storable(ctx, Compound(ATTRID_CHAN_DEF, ChanDefContent(id, decl)))
    ensures Extend(ctx, Compound(ATTRID_CHAN_DEF, ChanDefContent(id, decl)))
         == Some(ctx.(chanLabels := ctx.chanLabels[id as int := decl.name]))
  {
    hide Sorted, Select, AllStorable, Insert, ListLength, UnsignedWidth, SignedWidth;
    var a, b := SignedInt(ATTRID_CHAN_ID, id), Text(ATTRID_CHAN_LABEL, decl.name);
    var one := Insert(decl.subattrs, a);
    WidthAtMostEight(id);
    AllStorableInsert(ctx, decl.subattrs, a);
    AllStorableInsert(ctx, one, b);
    InsertStable(decl.subattrs, a, ATTRID_CHAN_ID);
    InsertStable(decl.subattrs, a, ATTRID_CHAN_LABEL);
    InsertStable(one, b, ATTRID_CHAN_ID);
    InsertStable(one, b, ATTRID_CHAN_LABEL);
  }

  lemma {:induction false} ChanDefsStorable(attrDecls: seq<AttrDecl>, chanDecls: seq<ChanDecl>)
    requires Storables(attrDecls, chanDecls) && |chanDecls| < TWO31
    ensures StorableUnder(Declared(attrDecls, []), ChanDefs(chanDecls))
    ensures ContextAfter(Declared(attrDecls, []), ChanDefs(chanDecls)) == Declared(attrDecls, chanDecls)
    decreases |chanDecls|
  {
    hide Storable, Extend, ChanDefContent, Sorted, Select, AllStorable, ListLength;
    var n := |chanDecls| - 1;
    if n >= 0 {
      var front, ctx := chanDecls[..n], Declared(attrDecls, chanDecls[..n]);
      ChanDefsStorable(attrDecls, front);
      var last := Compound(ATTRID_CHAN_DEF, ChanDefContent(n, chanDecls[n]));
      AllStorableByTypes(Declared(attrDecls, []), ctx, chanDecls[n].subattrs);
      ChanDefStorable(ctx, n, chanDecls[n]);
      assert ChanDefs(chanDecls) == ChanDefs(front) + [last];
      SingleStorable(ctx, last);
      StorableUnderAppend(Declared(attrDecls, []), ChanDefs(front), [last]);
      assert Extend(ctx, last).value == Declared(attrDecls, chanDecls);
    } else {
      assert ChanDefs(chanDecls) == [];
    }
  }

  lemma SortedConcat(l: seq<Attr>, r: seq<Attr>)
    requires Sorted(l) && Sorted(r)
    requires forall a, b | a in l && b in r :: !AttridLess(b.id, a.id)
    ensures Sorted(l + r)
  {
    hide OrderKey, Sorted;
    var s := l + r;
    forall i, j | 0 <= i < j < |s|
      ensures OrderKey(s[i].id) <= OrderKey(s[j].id)
    {
      if j < |l| {
        SortedPair(l, i, j);
      } else if i >= |l| {
        SortedPair(r, i - |l|, j - |l|);
      } else {
        assert s[i] in l && s[j] in r;
      }
    }
    SortedIntro(s);
  }

  lemma SortedSame(l: seq<Attr>, id: Int32)
    requires forall a | a in l :: a.id == id
    ensures Sorted(l)
  {
    hide OrderKey;
  }

  lemma HoldsSorted(list: seq<Attr>, pre: seq<Attr>, attrDecls: seq<AttrDecl>,
                    chanDecls: seq<ChanDecl>, post: seq<Attr>)
    requires Holds(list, pre, attrDecls, chanDecls, post)
    ensures Sorted(list)
  {
    hide AttridLess, Sorted, IsPlain, AttrDefContent, ChanDefContent;
    forall x: Attr, y: Attr
      ensures x.id < 0 ==> (AttridLess(x.id, y.id) <==> y.id < x.id || y.id >= 0)
    {
      if x.id < 0 { LessByValue(x.id, y.id); }
    }
    SortedSame(pre, ATTRID_PROTOCOL);
    SortedSame(AttrDefs(attrDecls), ATTRID_ATTR_DEF);
    SortedSame(ChanDefs(chanDecls), ATTRID_CHAN_DEF);
    SortedConcat(pre, AttrDefs(attrDecls));
    SortedConcat(pre + AttrDefs(attrDecls), ChanDefs(chanDecls));
    SortedConcat(pre + AttrDefs(attrDecls) + ChanDefs(chanDecls), post);
  }

  lemma HoldsReserved(list: seq<Attr>, pre: seq<Attr>, attrDecls: seq<AttrDecl>,
                      chanDecls: seq<ChanDecl>, post: seq<Attr>)
    requires Holds(list, pre, attrDecls, chanDecls, post) && ReservedStorable(list)
    ensures forall a | a in pre + post ::
              IsPlain(a) && Storable(EMPTY_CONTEXT, a) && a.id != ATTRID_ATTR_DEF && a.id != ATTRID_CHAN_DEF
  {
    hide Storable, Sorted;
    forall a | a in pre + post
      ensures a in list
    {
    }
  }

  /** The record parses from an empty context to an equal record, and yields exactly the
      declarations made: every attribute definition is ahead of every use of it. */
  lemma SelfDescribing(list: seq<Attr>, pre: seq<Attr>, attrDecls: seq<AttrDecl>,
                       chanDecls: seq<ChanDecl>, post: seq<Attr>)
    requires Holds(list, pre, attrDecls, chanDecls, post)
    requires Storables(attrDecls, chanDecls) && ReservedStorable(list) && IsUInt64(ListLength(list))
    ensures var r := Record(CHANNEL_SESSION, list);
            ParseRecord(EMPTY_CONTEXT, EncodeRecord(r)) == Outcome(Declared(attrDecls, chanDecls), Done(r, []))
  {
    hide Sorted, IsPlain, StorableUnder, ContextAfter, Declared, ParseRecord, EncodeRecord, AttrDefs,
         ChanDefs, ListLength;
    var r := Record(CHANNEL_SESSION, list);
    var defs, chans := AttrDefs(attrDecls), ChanDefs(chanDecls);
    HoldsReserved(list, pre, attrDecls, chanDecls, post);
    PlainStorable(EMPTY_CONTEXT, pre);
    AttrDefsStorable(attrDecls);
    ChanDefsStorable(attrDecls, chanDecls);
    PlainStorable(Declared(attrDecls, chanDecls), post);
    StorableUnderAppend(EMPTY_CONTEXT, pre, defs);
    StorableUnderAppend(EMPTY_CONTEXT, pre + defs, chans);
    StorableUnderAppend(EMPTY_CONTEXT, pre + defs + chans, post);
    HoldsSorted(list, pre, attrDecls, chanDecls, post);
    RecordRoundTrip(EMPTY_CONTEXT, r, []);
    assert EncodeRecord(r) + [] == EncodeRecord(r);
  }

  /** A session builder. IDs are allocated in order from zero. */
  class SessionBuilder {
    var attributes: seq<Attr>
    var attrCount: nat
    var chanCount: nat
    // What has been declared so far, in order.
    ghost var attrDecls: seq<AttrDecl>
    ghost var chanDecls: seq<ChanDecl>
    // The reserved attributes ahead of the definitions, and those behind them.
    ghost var pre: seq<Attr>
    ghost var post: seq<Attr>

    /** The attribute list holds what has been declared, in canonical order. */
    ghost predicate Valid()
      reads this
    {
      && attrCount == |attrDecls| < TWO31 && chanCount == |chanDecls| < TWO31
      && Holds(attributes, pre, attrDecls, chanDecls, post)
    }

    constructor (protocol: Option<UInt64>, srcid: seq<Octet>, timeSystem: seq<Octet>,
                 sec: Int64, nsec: Nanoseconds)
      ensures Valid() && attrDecls == [] && chanDecls == []
      ensures attributes == Insert(Insert(Insert(
                if protocol.Some? then [UnsignedInt(-1, protocol.value)] else [],
                Text(-12, timeSystem)), Text(-9, srcid)), Timestamp(-11, sec, nsec))
    {
      hide Holds, Insert;
      var list: seq<Attr> := [];
      if protocol.Some? {
        list := [UnsignedInt(ATTRID_PROTOCOL, protocol.value)];
      }
      var a, b, c := Text(ATTRID_TIME_SYSTEM, timeSystem), Text(ATTRID_SOURCE, srcid), Timestamp(ATTRID_TS, sec, nsec);
      attributes, attrCount, chanCount := Insert(Insert(Insert(list, a), b), c), 0, 0;
      attrDecls, chanDecls, pre, post := [], [], list, Insert(Insert(Insert([], a), b), c);
      HoldsStart(protocol, list, a, b, c);
    }

    method InsertReserved(a: Attr)
      requires Valid() && IsPlain(a) && a.id < ATTRID_CHAN_DEF
      modifies this
      ensures Valid() && attributes == Insert(old(attributes), a)
      ensures attrDecls == old(attrDecls) && chanDecls == old(chanDecls)
    {
      hide Holds, Insert, IsPlain;
      HoldsInsertPost(attributes, pre, attrDecls, chanDecls, post, a);
      attributes := Insert(attributes, a);
      post := Insert(post, a);
    }

    method DefineAttribute(name: seq<Octet>, typ: Int32) returns (id: Int32)
      requires Valid() && attrCount + 1 < TWO31
      modifies this
      ensures Valid() && id == old(|attrDecls|)
      ensures attrDecls == old(attrDecls) + [AttrDecl(name, typ)] && chanDecls == old(chanDecls)
      ensures pre == old(pre) && post == old(post)
    {
      hide Holds, Insert, AttrDefContent, ChanDefContent, IsPlain;
      id := attrCount;
      var decl := AttrDecl(name, typ);
      HoldsInsertAttrDef(attributes, pre, attrDecls, chanDecls, post, decl);
      attributes := Insert(attributes, Compound(ATTRID_ATTR_DEF, AttrDefContent(id, decl)));
      attrDecls := attrDecls + [decl];
      attrCount := attrCount + 1;
    }

    method DefineChannel(name: seq<Octet>, subattrs: seq<Attr>) returns (id: Int32)
      requires Valid() && chanCount + 1 < TWO31
      modifies this
      ensures Valid() && id == old(|chanDecls|)
      ensures chanDecls == old(chanDecls) + [ChanDecl(name, subattrs)] && attrDecls == old(attrDecls)
      ensures pre == old(pre) && post == old(post)
    {
      hide Holds, Insert, AttrDefContent, ChanDefContent, IsPlain;
      id := chanCount;
      var decl := ChanDecl(name, subattrs);
      HoldsInsertChanDef(attributes, pre, attrDecls, chanDecls, post, decl);
      attributes := Insert(attributes, Compound(ATTRID_CHAN_DEF, ChanDefContent(id, decl)));
      chanDecls := chanDecls + [decl];
      chanCount := chanCount + 1;
    }

    method DefineHash(algorithm: seq<Octet>)
      requires Valid()
      modifies this
      ensures Valid() && attrDecls == old(attrDecls) && chanDecls == old(chanDecls)
      ensures attributes == Insert(old(attributes), Text(-15, algorithm))
    {
      hide Holds, Insert;
      InsertReserved(Text(ATTRID_HASH_ALG, algorithm));
    }

    method DefineKeypair(algorithm: seq<Octet>, pubkey: seq<Octet>)
      requires Valid()
      modifies this
      ensures Valid() && attrDecls == old(attrDecls) && chanDecls == old(chanDecls)
      ensures attributes == Insert(Insert(old(attributes), Text(-17, algorithm)), Binary(-18, pubkey))
    {
      hide Holds, Insert;
      InsertReserved(Text(ATTRID_SIG_ALG, algorithm));
      InsertReserved(Binary(ATTRID_SIG_PUBKEY, pubkey));
    }

    /** Build the session record. If the channels' sub-attributes have the types declared
        (by any call, earlier or later) then the record, parsed from an empty context,
        gives back an equal record and a context with exactly the declarations made. */
    method Build() returns (r: Record)
      requires Valid()
      ensures r == Record(CHANNEL_SESSION, attributes)
      ensures Storables(attrDecls, chanDecls) && ReservedStorable(attributes) && IsUInt64(ListLength(attributes)) ==>
                ParseRecord(EMPTY_CONTEXT, EncodeRecord(r)) == Outcome(Declared(attrDecls, chanDecls), Done(r, []))
    {
      r := Record(CHANNEL_SESSION, attributes);
      if Storables(attrDecls, chanDecls) && ReservedStorable(attributes) && IsUInt64(ListLength(attributes)) {
        hide Holds, Insert, AttrDefContent, ChanDefContent, IsPlain;
        SelfDescribing(attributes, pre, attrDecls, chanDecls, post);
      }
    }
  }
}
