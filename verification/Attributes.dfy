/** Attributes, their canonical order, and their encoding. */
module Attributes {
  import opened Octets
  import opened OctetWriters
  import opened Base128
  import opened FixedWidth

  const NSEC_LIMIT: int := 2_000_000_000
  type Nanoseconds = x: int | 0 <= x < NSEC_LIMIT

  datatype Attr =
    | Compound(id: Int32, attrs: seq<Attr>)
    | UnsignedInt(id: Int32, unsigned: UInt64)
    | SignedInt(id: Int32, signed: Int64)
    | Binary(id: Int32, bytes: seq<Octet>)
    | Text(id: Int32, text: seq<Octet>)
    | Timestamp(id: Int32, sec: Int64, nsec: Nanoseconds)
    | Boolean(id: Int32, flag: bool)
    | Unrecognised(id: Int32, raw: seq<Octet>)

  const ATTRID_PROTOCOL: Int32 := -1
  const ATTRID_ATTR_DEF: Int32 := -2
  const ATTRID_ATTR_ID: Int32 := -3
  const ATTRID_ATTR_LABEL: Int32 := -4
  const ATTRID_CHAN_DEF: Int32 := -5
  const ATTRID_CHAN_ID: Int32 := -6
  const ATTRID_CHAN_LABEL: Int32 := -7
  const ATTRID_TYPE: Int32 := -8
  const ATTRID_SOURCE: Int32 := -9
  const ATTRID_SEQNUM: Int32 := -10
  const ATTRID_TS: Int32 := -11
  const ATTRID_TIME_SYSTEM: Int32 := -12
  const ATTRID_HASH: Int32 := -14
  const ATTRID_SIG: Int32 := -16

  // ---------------------------------------------------------------------------
  // Canonical order
  // ---------------------------------------------------------------------------

  /** Exclusive or, bit by bit from the least significant. */
  function Xor(x: nat, y: nat): nat {
    if x == 0 && y == 0 then 0 else 2 * Xor(x / 2, y / 2) + (if x % 2 == y % 2 then 0 else 1)
  }

  lemma {:induction false} XorWithZero(x: nat)
    ensures Xor(x, 0) == x
  {
    if x == 0 {
    } else {
      XorWithZero(x / 2);
    }
  }

  /** Exclusive or with a row of ones is subtraction from them. */
  lemma {:induction false} XorWithOnes(x: nat, n: nat)
    requires x < Pow2(n)
    ensures Xor(x, Pow2(n) - 1) == Pow2(n) - 1 - x
  {
    if n == 0 {
    } else {
      assert (Pow2(n) - 1) / 2 == Pow2(n - 1) - 1;
      XorWithOnes(x / 2, n - 1);
    }
  }

  /** The comparison key of an attribute ID, as 64-bit arithmetic computes it: the ID
      is sign-extended, a mask of 63 ones (for a non-negative ID) or zeros (for a
      negative one) is exclusive-ored in, and the result is negated. */
  function OrderKey(id: Int32): (key: UInt64) {
    var u := ToUInt64(id);
    (0 - Xor(u, (u / TWO63 - 1) % TWO64 / 2)) % TWO64
  }

  predicate AttridLess(lhs: Int32, rhs: Int32) { OrderKey(lhs) < OrderKey(rhs) }

  /** The comparator lists reserved (negative) IDs before user-defined ones, and
      otherwise lists IDs in ascending order of absolute value. */
  lemma AttridLessMeans(lhs: Int32, rhs: Int32)
    ensures AttridLess(lhs, rhs) <==> if lhs < 0 <==> rhs < 0 then Abs(lhs) < Abs(rhs)
                                      else lhs < 0
    ensures OrderKey(lhs) == OrderKey(rhs) <==> lhs == rhs
  {
    OrderKeyValue(lhs);
    OrderKeyValue(rhs);
  }

  lemma OrderKeyValue(id: Int32)
    ensures OrderKey(id) == if id < 0 then Abs(id) else TWO63 + 1 + id
  {
    hide Xor;
    if id < 0 {
      assert ToUInt64(id) / TWO63 == 1;
      XorWithZero(ToUInt64(id));
      assert (0 - ToUInt64(id)) % TWO64 == Abs(id);
    } else {
      assert ToUInt64(id) / TWO63 == 0;
      assert Pow2(63) == TWO63 by { Pow2Values(); }
      XorWithOnes(id, 63);
      assert (0 - (TWO63 - 1 - id)) % TWO64 == TWO64 - (TWO63 - 1 - id);
    }
  }

  ghost predicate Sorted(attrs: seq<Attr>) {
    forall i, j :: 0 <= i < j < |attrs| ==> OrderKey(attrs[i].id) <= OrderKey(attrs[j].id)
  }

  /** The first position whose attribute belongs after one with the given ID. */
  function UpperBound(attrs: seq<Attr>, id: Int32): (k: nat)
    ensures k <= |attrs|
    ensures forall i :: 0 <= i < k ==> OrderKey(attrs[i].id) <= OrderKey(id)
    ensures k < |attrs| ==> OrderKey(id) < OrderKey(attrs[k].id)
  {
    if attrs == [] || AttridLess(id, attrs[0].id) then 0 else 1 + UpperBound(attrs[1..], id)
  }

  function Insert(attrs: seq<Attr>, a: Attr): (r: seq<Attr>) {
    var k := UpperBound(attrs, a.id);
    attrs[..k] + [a] + attrs[k..]
  }

  /** Everything from the insertion point on belongs after the given ID. */
  lemma UpperBoundSplits(attrs: seq<Attr>, id: Int32, i: nat)
    requires Sorted(attrs) && UpperBound(attrs, id) <= i < |attrs|
    ensures OrderKey(id) < OrderKey(attrs[i].id)
  {
    hide OrderKey;
    if UpperBound(attrs, id) < i {
      SortedPair(attrs, UpperBound(attrs, id), i);
    }
  }

  /** Insertion adds one member. */
  lemma InsertMembers(attrs: seq<Attr>, a: Attr)
    ensures forall x :: x in Insert(attrs, a) <==> x in attrs || x == a
  {
    var k := UpperBound(attrs, a.id);
    assert attrs == attrs[..k] + attrs[k..];
  }

  /** Insertion keeps the list in order and adds exactly one attribute. */
  lemma InsertSorted(attrs: seq<Attr>, a: Attr)
    requires Sorted(attrs)
    ensures Sorted(Insert(attrs, a))
    ensures multiset(Insert(attrs, a)) == multiset(attrs) + multiset{a}
  {
    hide OrderKey, UpperBound, Sorted;
    var k := UpperBound(attrs, a.id);
    var r := Insert(attrs, a);
    assert attrs == attrs[..k] + attrs[k..];
    forall i, j | 0 <= i < j < |r|
      ensures OrderKey(r[i].id) <= OrderKey(r[j].id)
    {
      var i' := if i < k then i else i - 1;
      var j' := if j < k then j else j - 1;
      if i == k {
        UpperBoundSplits(attrs, a.id, j');
      } else if j != k {
        SortedPair(attrs, i', j');
      }
    }
    SortedIntro(r);
  }

  lemma SortedIntro(attrs: seq<Attr>)
    requires forall i, j :: 0 <= i < j < |attrs| ==> OrderKey(attrs[i].id) <= OrderKey(attrs[j].id)
    ensures Sorted(attrs)
  {
    hide OrderKey;
  }

  /** Insertion is stable: the new attribute comes last of those with its ID, and the
      attributes with any one ID are otherwise as they were. */
  lemma InsertStable(attrs: seq<Attr>, a: Attr, id: Int32)
    requires Sorted(attrs)
    ensures Select(Insert(attrs, a), id) == Select(attrs, id) + (if id == a.id then [a] else [])
  {
    hide OrderKey, UpperBound, Sorted;
    var k := UpperBound(attrs, a.id);
    var l, r := attrs[..k], attrs[k..];
    assert attrs == l + r;
    SelectConcat(l + [a], r, id);
    SelectConcat(l, [a], id);
    SelectConcat(l, r, id);
    SelectSingle(a, id);
    if id == a.id {
      forall i | 0 <= i < |r|
        ensures r[i].id != id
      {
        UpperBoundSplits(attrs, a.id, k + i);
      }
      SelectNone(r, id);
    }
  }

  lemma SelectSingle(a: Attr, id: Int32)
    ensures Select([a], id) == if id == a.id then [a] else []
  {
    assert [a][1..] == [];
  }

  /** The attributes with a given ID, in order. */
  function Select(attrs: seq<Attr>, id: Int32): seq<Attr> {
    if attrs == [] then []
    else (if attrs[0].id == id then [attrs[0]] else []) + Select(attrs[1..], id)
  }

  lemma {:induction false} SelectConcat(a: seq<Attr>, b: seq<Attr>, id: Int32)
    ensures Select(a + b, id) == Select(a, id) + Select(b, id)
  {
    if a == [] {
      assert a + b == b;
    } else {
      var first := if a[0].id == id then [a[0]] else [];
      assert (a + b)[1..] == a[1..] + b;
      SelectConcat(a[1..], b, id);
      assert Select(a + b, id) == first + (Select(a[1..], id) + Select(b, id));
      assert Select(a, id) == first + Select(a[1..], id);
    }
  }

  lemma {:induction false} SelectNone(attrs: seq<Attr>, id: Int32)
    requires forall i :: 0 <= i < |attrs| ==> attrs[i].id != id
    ensures Select(attrs, id) == []
  {
    if attrs == [] {
    } else {
      SelectNone(attrs[1..], id);
    }
  }

  lemma SortedPair(attrs: seq<Attr>, i: nat, j: nat)
    requires Sorted(attrs) && i < j < |attrs|
    ensures OrderKey(attrs[i].id) <= OrderKey(attrs[j].id)
  {
    hide OrderKey;
  }

  lemma InsertLast(attrs: seq<Attr>, a: Attr)
    requires Sorted(attrs + [a])
    ensures Insert(attrs, a) == attrs + [a]
  {
    hide OrderKey;
    var k := UpperBound(attrs, a.id);
    if k < |attrs| {
      SortedPair(attrs + [a], k, |attrs|);
    }
  }

  /** The one attribute with a given ID, if there is exactly one. */
  function FindOne(attrs: seq<Attr>, id: Int32): Option<Attr> {
    var found := Select(attrs, id);
    if |found| == 1 then Some(found[0]) else None
  }

  method FindOneAttribute(attrs: seq<Attr>, id: Int32) returns (r: Result<Attr>)
    ensures r == match FindOne(attrs, id) case Some(a) => Ok(a) case None => Err(Invalid)
  {
    var found: Option<Attr> := None;
    var i := 0;
    while i < |attrs|
      invariant 0 <= i <= |attrs|
      invariant Select(attrs, id)
             == (if found.Some? then [found.value] else []) + Select(attrs[i..], id)
    {
      if attrs[i].id == id {
        if found.Some? {
          return Err(Invalid);
        }
        found := Some(attrs[i]);
      }
      assert attrs[i..][1..] == attrs[i + 1..];
      i := i + 1;
    }
    r := if found.Some? then Ok(found.value) else Err(Invalid);
  }

  // ---------------------------------------------------------------------------
  // Encoding
  // ---------------------------------------------------------------------------

  function ContentLength(a: Attr): nat
    decreases a
  {
    match a
    case Compound(_, attrs) => ListLength(attrs)
    case UnsignedInt(_, v) => UnsignedWidth(v)
    case SignedInt(_, v) => SignedWidth(v)
    case Binary(_, bytes) => |bytes|
    case Text(_, text) => |text|
    case Timestamp(_, sec, _) => UnsignedWidth(ToUInt64(sec)) + 4
    case Boolean(_, _) => 1
    case Unrecognised(_, raw) => |raw|
  }

  function ListLength(attrs: seq<Attr>): nat
    decreases attrs
  {
    if attrs == [] then 0
    else
      var len := ContentLength(attrs[0]);
      |EncodeSigned(attrs[0].id)| + |EncodeUnsigned(len)| + len + ListLength(attrs[1..])
  }

  function EncodeContent(a: Attr): seq<Octet>
    decreases a, 0
  {
    match a
    case Compound(_, attrs) => EncodeList(attrs)
    case UnsignedInt(_, v) => BigEndian(v, UnsignedWidth(v))
    case SignedInt(_, v) => BigEndian(v, SignedWidth(v))
    case Binary(_, bytes) => bytes
    case Text(_, text) => text
    case Timestamp(_, sec, nsec) =>
      BigEndian(ToUInt64(sec), UnsignedWidth(ToUInt64(sec))) + BigEndian(nsec, 4)
    case Boolean(_, flag) => [if flag then 1 else 0]
    case Unrecognised(_, raw) => raw
  }

  function EncodeAttr(a: Attr): seq<Octet>
    decreases a, 1
  {
    EncodeSigned(a.id) + EncodeUnsigned(ContentLength(a)) + EncodeContent(a)
  }

  function EncodeList(attrs: seq<Attr>): seq<Octet>
    decreases attrs
  {
    if attrs == [] then [] else EncodeAttr(attrs[0]) + EncodeList(attrs[1..])
  }

  /** The length written ahead of each attribute's content is the number of octets
      that content occupies, at every level of nesting. */
  lemma {:induction false} ContentLengthExact(a: Attr)
    ensures |EncodeContent(a)| == ContentLength(a)
    decreases a
  {
    if a.Compound? {
      ListLengthExact(a.attrs);
    }
  }

  lemma {:induction false} ListLengthExact(attrs: seq<Attr>)
    ensures |EncodeList(attrs)| == ListLength(attrs)
    decreases attrs
  {
    if attrs == [] {
    } else {
      ContentLengthExact(attrs[0]);
      ListLengthExact(attrs[1..]);
    }
  }
}
