/** Capturing a session: sequence numbers, and the chain of hashes over its records. */
module Capture {
  import opened Octets
  import opened Base128
  import opened FixedWidth
  import opened Attributes
  import opened Codec
  import opened Records
  import opened Sessions

  type Hash = seq<Octet>
  type HashFn = seq<Octet> -> Hash

  // ---------------------------------------------------------------------------
  // The records written
  // ---------------------------------------------------------------------------

  /** Append the hash of the previous event, if there was one. */
  function WithHash(attrs: seq<Attr>, prev: Option<Hash>): seq<Attr> {
    match prev
    case None => attrs
    case Some(h) => Insert(attrs, Binary(ATTRID_HASH, h))
  }

  /** An event as it is written: with a sequence number, and the hash of the previous event. */
  function Stamp(e: Record, seqnum: UInt64, prev: Option<Hash>): Record {
    Record(e.channel, WithHash(Insert(e.attributes, UnsignedInt(ATTRID_SEQNUM, seqnum)), prev))
  }

  /** The record which ends a session. */
  function EndRecord(ts: Ts, seqnum: UInt64, prev: Option<Hash>): Record
    requires IsInt64(ts.sec) && 0 <= ts.nsec < NSEC_LIMIT
  {
    Record(CHANNEL_END, WithHash(Insert(Insert([],
      Timestamp(ATTRID_TS, ts.sec, ts.nsec)), UnsignedInt(ATTRID_SEQNUM, seqnum)), prev))
  }

  /** A signature over a hash. That of the session record has no sequence number. */
  function SignatureRecord(sign: HashFn, seqnum: Option<UInt64>, hash: Hash): Record {
    var sig := Binary(ATTRID_SIG, sign(hash));
    Record(CHANNEL_SIGNATURE,
           match seqnum
           case None => Insert([], sig)
           case Some(n) => Insert(Insert([], UnsignedInt(ATTRID_SEQNUM, n)), sig))
  }

  // ---------------------------------------------------------------------------
  // The chain
  // ---------------------------------------------------------------------------

  /** A session record, the events passed to the session writer in order, and if the session
      has ended, when. */
  datatype Session = Session(srec: Record, events: seq<Record>, end: Option<Ts>)

  function SessionHash(hash: HashFn, s: Session): Hash { hash(EncodeRecord(s.srec)) }

  /** The k-th event as it is written. (Sequence numbers are 64-bit.) */
  function Stamped(hash: HashFn, s: Session, k: nat): Record
    requires k < |s.events|
    decreases k, 1
  {
    Stamp(s.events[k], k % TWO64, Previous(hash, s, k))
  }

  /** The hash to be included in the k-th record. */
  function Previous(hash: HashFn, s: Session, k: nat): Option<Hash>
    requires k <= |s.events|
    decreases k, 0
  {
    if k == 0 then None else Some(EventHash(hash, s, k - 1))
  }

  /** What is hashed for the k-th event. */
  function EventInput(hash: HashFn, s: Session, k: nat): seq<Octet>
    requires k < |s.events|
    decreases k, 2
  {
    SessionHash(hash, s) + EncodeRecord(Stamped(hash, s, k))
  }

  function EventHash(hash: HashFn, s: Session, k: nat): Hash
    requires k < |s.events|
    decreases k, 3
  {
    hash(EventInput(hash, s, k))
  }

  function EndOf(hash: HashFn, s: Session): Record
    requires s.end.Some? && IsEndTime(s.end.value)
  {
    EndRecord(s.end.value, |s.events| % TWO64, Previous(hash, s, |s.events|))
  }

  /** A time later than the epoch. */
  predicate IsEndTime(ts: Ts) { 0 < ts.sec < TWO63 && 0 <= ts.nsec < NSEC_LIMIT }

  function EndInput(hash: HashFn, s: Session): seq<Octet>
    requires s.end.Some? && IsEndTime(s.end.value)
  {
    SessionHash(hash, s) + EncodeRecord(EndOf(hash, s))
  }

  // ---------------------------------------------------------------------------
  // What can be captured
  // ---------------------------------------------------------------------------

  /** An attribute which can be stored, and which neither defines anything nor has an ID that
      the session writer uses for its own purposes. */
  ghost predicate Plain(ctx: Context, a: Attr) {
    Storable(ctx, a) && a.id !in {ATTRID_ATTR_DEF, ATTRID_CHAN_DEF}
  }

  ghost predicate Capturable(ctx: Context, e: Record) {
    && e.IsEvent() && Sorted(e.attributes) && ListLength(e.attributes) < TWO63
    && (forall a | a in e.attributes :: Plain(ctx, a) && a.id != ATTRID_SEQNUM && a.id != ATTRID_HASH)
  }

  ghost predicate WellFormed(s: Session) {
    && StorableRecord(EMPTY_CONTEXT, s.srec)
    && (forall e | e in s.events :: Capturable(SessionContextOf(s), e))
    && (s.end.Some? ==> IsEndTime(s.end.value))
  }

  ghost function SessionContextOf(s: Session): Context
    requires StorableRecord(EMPTY_CONTEXT, s.srec)
  {
    ContextAfter(EMPTY_CONTEXT, s.srec.attributes)
  }

  /** A hash function whose results all have one length, which can itself be stored. */
  ghost predicate HasLength(hash: HashFn, n: nat) { 0 < n < TWO31 && forall x :: |hash(x)| == n }

  /** The octets which are hashed during a session. */
  ghost predicate Hashes(hash: HashFn, s: Session, x: seq<Octet>) {
    || x == EncodeRecord(s.srec)
    || (exists k | 0 <= k < |s.events| :: x == EventInput(hash, s, k))
    || (s.end.Some? && IsEndTime(s.end.value) && x == EndInput(hash, s))
  }

  /** No two different inputs hashed, one in each of two sessions, have the same hash. */
  ghost predicate NoCollision(hash: HashFn, s1: Session, s2: Session) {
    forall x, y | Hashes(hash, s1, x) && Hashes(hash, s2, y) :: hash(x) == hash(y) ==> x == y
  }

  lemma {:induction false} LengthConcat(a: seq<Attr>, b: seq<Attr>)
    ensures ListLength(a + b) == ListLength(a) + ListLength(b)
  {
    hide EncodeSigned, EncodeUnsigned, ContentLength;
    if a == [] {
      assert a + b == b;
    } else {
      assert (a + b)[1..] == a[1..] + b;
      LengthConcat(a[1..], b);
    }
  }

  lemma InsertLength(attrs: seq<Attr>, a: Attr)
    ensures ListLength(Insert(attrs, a)) == ListLength(attrs) + ListLength([a])
  {
    hide ListLength;
    var k := UpperBound(attrs, a.id);
    assert attrs == attrs[..k] + attrs[k..];
    LengthConcat(attrs[..k], attrs[k..]);
    LengthConcat(attrs[..k] + [a], attrs[k..]);
    LengthConcat(attrs[..k], [a]);
  }

  /** Insertion under an ID which is not yet present can be undone. */
  lemma InsertInjective(attrs1: seq<Attr>, attrs2: seq<Attr>, a: Attr, b: Attr)
    requires a.id == b.id
    requires forall x | x in attrs1 + attrs2 :: x.id != a.id
    requires Insert(attrs1, a) == Insert(attrs2, b)
    ensures attrs1 == attrs2 && a == b
  {
    hide UpperBound;
    var k1, k2 := UpperBound(attrs1, a.id), UpperBound(attrs2, b.id);
    assert attrs1 == attrs1[..k1] + attrs1[k1..] && attrs2 == attrs2[..k2] + attrs2[k2..];
    SplitUnique(attrs1[..k1], a, attrs1[k1..], attrs2[..k2], b, attrs2[k2..]);
  }

  lemma SplitUnique(l1: seq<Attr>, a: Attr, r1: seq<Attr>, l2: seq<Attr>, b: Attr, r2: seq<Attr>)
    requires a.id == b.id && l1 + [a] + r1 == l2 + [b] + r2
    requires forall x | x in l1 :: x.id != a.id
    requires forall x | x in l2 :: x.id != a.id
    ensures l1 == l2 && a == b && r1 == r2
  {
    var s := l1 + [a] + r1;
    assert s[|l1|] == a && s[|l2|] == b;
    assert forall i | 0 <= i < |l1| :: s[i] == l1[i] && l1[i] in l1;
    assert forall i | 0 <= i < |l2| :: s[i] == l2[i] && l2[i] in l2;
    assert l1 == s[..|l1|] && l2 == s[..|l2|];
    assert r1 == s[|l1| + 1..] && r2 == s[|l2| + 1..];
  }

  lemma StampAttrs(e: Record, seqnum: UInt64, prev: Option<Hash>, n: nat)
    requires Sorted(e.attributes) && ListLength(e.attributes) < TWO63
    requires n < TWO31 && (prev.Some? ==> |prev.value| == n)
    ensures var attrs := Stamp(e, seqnum, prev).attributes;
            && Sorted(attrs) && IsUInt64(ListLength(attrs))
            && forall a | a in attrs :: a in e.attributes || a == UnsignedInt(ATTRID_SEQNUM, seqnum)
                                     || (prev.Some? && a == Binary(ATTRID_HASH, prev.value))
  {
    hide Insert, Sorted, ListLength;
    var a := UnsignedInt(ATTRID_SEQNUM, seqnum);
    InsertSorted(e.attributes, a);
    InsertMembers(e.attributes, a);
    InsertLength(e.attributes, a);
    SeqnumLength(seqnum);
    if prev.Some? {
      var b := Binary(ATTRID_HASH, prev.value);
      InsertSorted(Insert(e.attributes, a), b);
      InsertMembers(Insert(e.attributes, a), b);
      InsertLength(Insert(e.attributes, a), b);
      HashLength(prev.value);
    }
  }

  lemma {:induction false} LeadBound(v: nat)
    ensures |UnsignedLead(v)| <= v
  {
    if v == 0 {
    } else {
      LeadBound(v / 128);
    }
  }

  lemma SeqnumLength(seqnum: UInt64)
    ensures ListLength([UnsignedInt(ATTRID_SEQNUM, seqnum)]) < TWO31
  {
    hide UnsignedWidth, UnsignedLead;
    var a := UnsignedInt(ATTRID_SEQNUM, seqnum);
    WidthAtMostEight(seqnum);
    LeadBound(ContentLength(a) / 128);
    SingleLength(a);
  }

  lemma HashLength(h: Hash)
    requires |h| < TWO31
    ensures ListLength([Binary(ATTRID_HASH, h)]) < 2 * TWO32
  {
    hide UnsignedLead;
    LeadBound(|h| / 128);
    SingleLength(Binary(ATTRID_HASH, h));
  }

  lemma SingleLength(a: Attr)
    requires Short(a.id)
    ensures ListLength([a]) == 1 + |EncodeUnsigned(ContentLength(a))| + ContentLength(a)
  {
    hide EncodeUnsigned, ContentLength;
    assert ListLength([a][1..]) == 0;
  }

  /** A stamped event can be stored under the context of the session, and does not change it. */
  lemma StampStorable(ctx: Context, e: Record, seqnum: UInt64, prev: Option<Hash>, n: nat)
    requires Capturable(ctx, e) && n < TWO31 && (prev.Some? ==> |prev.value| == n)
    ensures StorableRecord(ctx, Stamp(e, seqnum, prev))
  {
    hide Stamp, Sorted, ListLength, StorableUnder;
    StampAttrs(e, seqnum, prev, n);
    PlainAttrs(ctx, seqnum, prev, n);
    WithoutDefinitions(ctx, Stamp(e, seqnum, prev).attributes);
  }

  lemma PlainAttrs(ctx: Context, seqnum: UInt64, prev: Option<Hash>, n: nat)
    requires n < TWO31 && (prev.Some? ==> |prev.value| == n)
    ensures Plain(ctx, UnsignedInt(ATTRID_SEQNUM, seqnum))
    ensures prev.Some? ==> Plain(ctx, Binary(ATTRID_HASH, prev.value))
  {
    WidthAtMostEight(seqnum);
  }

  /** What was stamped onto an event can be told from the record written. */
  lemma StampInjective(e1: Record, n1: UInt64, prev1: Option<Hash>, e2: Record, n2: UInt64, prev2: Option<Hash>)
    requires forall a | a in e1.attributes + e2.attributes :: a.id != ATTRID_SEQNUM && a.id != ATTRID_HASH
    requires Stamp(e1, n1, prev1) == Stamp(e2, n2, prev2)
    ensures e1 == e2 && n1 == n2 && prev1 == prev2
  {
    hide Insert;
    var a1, a2 := UnsignedInt(ATTRID_SEQNUM, n1), UnsignedInt(ATTRID_SEQNUM, n2);
    InsertMembers(e1.attributes, a1);
    InsertMembers(e2.attributes, a2);
    var l1, l2 := Insert(e1.attributes, a1), Insert(e2.attributes, a2);
    WithHashInjective(l1, prev1, l2, prev2);
    InsertInjective(e1.attributes, e2.attributes, a1, a2);
  }

  lemma WithHashInjective(l1: seq<Attr>, prev1: Option<Hash>, l2: seq<Attr>, prev2: Option<Hash>)
    requires forall a | a in l1 + l2 :: a.id != ATTRID_HASH
    requires WithHash(l1, prev1) == WithHash(l2, prev2)
    ensures l1 == l2 && prev1 == prev2
  {
    hide Insert;
    if prev1.Some? {
      InsertMembers(l1, Binary(ATTRID_HASH, prev1.value));
    }
    if prev2.Some? {
      InsertMembers(l2, Binary(ATTRID_HASH, prev2.value));
    }
    if prev1.Some? && prev2.Some? {
      InsertInjective(l1, l2, Binary(ATTRID_HASH, prev1.value), Binary(ATTRID_HASH, prev2.value));
    } else {
      var m1, m2 := WithHash(l1, prev1), WithHash(l2, prev2);
      assert forall a | a in m1 :: a in m2;
      assert forall a | a in m2 :: a in m1;
    }
  }

  /** The record written states the sequence number stamped on it. */
  lemma StampSeqnum(e: Record, n: UInt64, prev: Option<Hash>)
    requires Sorted(e.attributes) && forall a | a in e.attributes :: a.id != ATTRID_SEQNUM
    ensures RecordSeqnum(Stamp(e, n, prev)) == Some(n as int)
  {
    hide Insert, Sorted, Select;
    var a := UnsignedInt(ATTRID_SEQNUM, n);
    var list := Insert(e.attributes, a);
    SelectNone(e.attributes, ATTRID_SEQNUM);
    InsertStable(e.attributes, a, ATTRID_SEQNUM);
    InsertSorted(e.attributes, a);
    assert Select(list, ATTRID_SEQNUM) == [a];
    if prev.Some? {
      InsertStable(list, Binary(ATTRID_HASH, prev.value), ATTRID_SEQNUM);
    }
  }

  /** What is added to an event, and that nothing else about it is changed: the sequence number is
      attribute -10, and the hash of the event before (if there is one) attribute -14. */
  lemma StampStates(e: Record, n: UInt64, prev: Option<Hash>, id: Int32)
    requires Sorted(e.attributes)
    ensures var rec := Stamp(e, n, prev);
            rec.channel == e.channel
            && Select(rec.attributes, id) == Select(e.attributes, id) +
                 (if id == -10 then [UnsignedInt(-10, n)]
                  else if id == -14 && prev.Some? then [Binary(-14, prev.value)] else [])
  {
    hide Insert, Select, Sorted;
    var a := UnsignedInt(ATTRID_SEQNUM, n);
    InsertSorted(e.attributes, a);
    InsertStable(e.attributes, a, id);
    if prev.Some? {
      InsertStable(Insert(e.attributes, a), Binary(ATTRID_HASH, prev.value), id);
    }
  }

  /** An end record (channel -2) states when the session ended, how many events there were, the hash of
      the last event if that is given, and nothing else. */
  lemma EndStates(now: Ts, seqnum: UInt64, prev: Option<Hash>)
    requires IsEndTime(now)
    ensures EndRecord(now, seqnum, prev).channel == -2
    ensures forall id: Int32 ::
              Select(EndRecord(now, seqnum, prev).attributes, id) ==
                if id == -11 then [Timestamp(-11, now.sec, now.nsec)]
                else if id == -10 then [UnsignedInt(-10, seqnum)]
                else if id == -14 && prev.Some? then [Binary(-14, prev.value)] else []
    ensures FindOne(EndRecord(now, seqnum, prev).attributes, ATTRID_HASH) ==
              if prev.Some? then Some(Binary(ATTRID_HASH, prev.value)) else None
  {
    hide Insert, Select, Sorted;
    var a, b := Timestamp(ATTRID_TS, now.sec, now.nsec), UnsignedInt(ATTRID_SEQNUM, seqnum);
    EmptyList();
    InsertSorted([], a);
    InsertSorted(Insert([], a), b);
    forall id: Int32
      ensures Select(EndRecord(now, seqnum, prev).attributes, id) ==
                if id == -11 then [a] else if id == -10 then [b]
                else if id == -14 && prev.Some? then [Binary(-14, prev.value)] else []
    {
      InsertStable([], a, id);
      InsertStable(Insert([], a), b, id);
      if prev.Some? {
        InsertStable(Insert(Insert([], a), b), Binary(ATTRID_HASH, prev.value), id);
      }
    }
  }

  /** A signature states the sequence number which it is for, and has the signature of the hash. */
  lemma SignatureStates(sign: HashFn, seqnum: Option<UInt64>, hash: Hash)
    ensures var rec := SignatureRecord(sign, seqnum, hash);
            && rec.channel == -6
            && FindOne(rec.attributes, -16) == Some(Binary(-16, sign(hash)))
            && RecordSeqnum(rec) == (if seqnum.Some? then Some(seqnum.value as int) else None)
  {
    hide Insert, Select, Sorted;
    var b := Binary(ATTRID_SIG, sign(hash));
    EmptyList();
    if seqnum.Some? {
      var a := UnsignedInt(ATTRID_SEQNUM, seqnum.value);
      InsertSorted([], a);
      InsertStable([], a, ATTRID_SIG);
      InsertStable([], a, ATTRID_SEQNUM);
      InsertStable(Insert([], a), b, ATTRID_SIG);
      InsertStable(Insert([], a), b, ATTRID_SEQNUM);
    } else {
      InsertStable([], b, ATTRID_SIG);
      InsertStable([], b, ATTRID_SEQNUM);
    }
  }

  // ---------------------------------------------------------------------------
  // What a hash binds
  // ---------------------------------------------------------------------------

  /** Equal hashed octets come from equal session hashes and equal records. */
  lemma InputParts(hash: HashFn, n: nat, s1: Session, s2: Session, x1: seq<Octet>, x2: seq<Octet>)
    requires HasLength(hash, n)
    requires SessionHash(hash, s1) + x1 == SessionHash(hash, s2) + x2
    ensures SessionHash(hash, s1) == SessionHash(hash, s2) && x1 == x2
  {
    var h1, h2 := SessionHash(hash, s1), SessionHash(hash, s2);
    assert |h1| == n && |h2| == n;
    assert (h1 + x1)[..n] == h1 && (h2 + x2)[..n] == h2;
    assert (h1 + x1)[n..] == x1 && (h2 + x2)[n..] == x2;
  }

  lemma SameSession(hash: HashFn, s1: Session, s2: Session)
    requires WellFormed(s1) && WellFormed(s2) && NoCollision(hash, s1, s2)
    requires SessionHash(hash, s1) == SessionHash(hash, s2)
    ensures s1.srec == s2.srec
  {
    hide EncodeRecord, StorableRecord, EventInput, EndInput;
    assert Hashes(hash, s1, EncodeRecord(s1.srec)) && Hashes(hash, s2, EncodeRecord(s2.srec));
    EncodeRecordInjective(EMPTY_CONTEXT, s1.srec, s2.srec);
  }

  /** One step down the chain. */
  lemma SameEvent(hash: HashFn, n: nat, s1: Session, s2: Session, i: nat, j: nat)
    requires WellFormed(s1) && WellFormed(s2) && HasLength(hash, n) && NoCollision(hash, s1, s2)
    requires i < |s1.events| && j < |s2.events| && EventHash(hash, s1, i) == EventHash(hash, s2, j)
    ensures s1.srec == s2.srec
    ensures s1.events[i] == s2.events[j] && Previous(hash, s1, i) == Previous(hash, s2, j)
  {
    hide EncodeRecord, StorableRecord, Stamp, SessionHash, ContextAfter, Capturable, EndInput;
    assert Hashes(hash, s1, EventInput(hash, s1, i)) && Hashes(hash, s2, EventInput(hash, s2, j));
    InputParts(hash, n, s1, s2, EncodeRecord(Stamped(hash, s1, i)), EncodeRecord(Stamped(hash, s2, j)));
    SameSession(hash, s1, s2);
    var ctx := SessionContextOf(s1);
    StampedStorable(hash, n, s1, i);
    StampedStorable(hash, n, s2, j);
    EncodeRecordInjective(ctx, Stamped(hash, s1, i), Stamped(hash, s2, j));
    CapturableIds(ctx, s1.events[i]);
    CapturableIds(ctx, s2.events[j]);
    StampInjective(s1.events[i], i % TWO64, Previous(hash, s1, i), s2.events[j], j % TWO64, Previous(hash, s2, j));
  }

  lemma StampedStorable(hash: HashFn, n: nat, s: Session, k: nat)
    requires WellFormed(s) && HasLength(hash, n) && k < |s.events|
    ensures StorableRecord(SessionContextOf(s), Stamped(hash, s, k))
  {
    hide Stamp, StorableRecord, Capturable, ContextAfter, EventInput;
    PreviousLength(hash, n, s, k);
    StampStorable(SessionContextOf(s), s.events[k], k % TWO64, Previous(hash, s, k), n);
  }

  lemma PreviousLength(hash: HashFn, n: nat, s: Session, k: nat)
    requires HasLength(hash, n) && k <= |s.events|
    ensures var prev := Previous(hash, s, k); prev.Some? ==> |prev.value| == n
  {
    hide EventInput;
  }

  lemma CapturableIds(ctx: Context, e: Record)
    requires Capturable(ctx, e)
    ensures forall a | a in e.attributes :: a.id != ATTRID_SEQNUM && a.id != ATTRID_HASH
  {
  }

  /** The hash of an event fixes the session record, the position of that event, and every
      event up to and including it. */
  lemma {:induction false} HashBindsHistory(hash: HashFn, n: nat, s1: Session, s2: Session, i: nat, j: nat)
    requires WellFormed(s1) && WellFormed(s2) && HasLength(hash, n) && NoCollision(hash, s1, s2)
    requires i < |s1.events| && j < |s2.events| && EventHash(hash, s1, i) == EventHash(hash, s2, j)
    ensures s1.srec == s2.srec && i == j && s1.events[..i + 1] == s2.events[..i + 1]
    decreases i
  {
    hide WellFormed, NoCollision, EventHash, SessionHash;
    SameEvent(hash, n, s1, s2, i, j);
    if i == 0 {
    } else {
      HashBindsHistory(hash, n, s1, s2, i - 1, j - 1);
      assert s1.events[..i + 1] == s1.events[..i] + [s1.events[i]];
      assert s2.events[..i + 1] == s2.events[..i] + [s2.events[i]];
    }
  }

  /** An end record is stamped in the same way as an event. */
  lemma EndAsStamp(ts: Ts, seqnum: UInt64, prev: Option<Hash>)
    requires IsEndTime(ts)
    ensures EndRecord(ts, seqnum, prev)
         == Record(CHANNEL_END, Stamp(Record(0, [Timestamp(ATTRID_TS, ts.sec, ts.nsec)]), seqnum, prev).attributes)
  {
    var a := Timestamp(ATTRID_TS, ts.sec, ts.nsec);
    assert Insert([], a) == [a];
  }

  lemma EndCapturable(ts: Ts)
    requires IsEndTime(ts)
    ensures Capturable(EMPTY_CONTEXT, Record(0, [Timestamp(ATTRID_TS, ts.sec, ts.nsec)]))
  {
    var u := ToUInt64(ts.sec);
    WidthAtMostEight(u);
  }

  lemma EndStorable(hash: HashFn, n: nat, s: Session)
    requires WellFormed(s) && s.end.Some? && HasLength(hash, n)
    ensures StorableRecord(EMPTY_CONTEXT, EndOf(hash, s))
  {
    hide Stamp, EndRecord, Capturable, SessionHash, EventInput, Sorted, StorableUnder, ListLength;
    var ts, prev := s.end.value, Previous(hash, s, |s.events|);
    PreviousLength(hash, n, s, |s.events|);
    EndCapturable(ts);
    EndAsStamp(ts, |s.events| % TWO64, prev);
    StampStorable(EMPTY_CONTEXT, Record(0, [Timestamp(ATTRID_TS, ts.sec, ts.nsec)]), |s.events| % TWO64, prev, n);
  }

  lemma EndInjective(ts1: Ts, n1: UInt64, prev1: Option<Hash>, ts2: Ts, n2: UInt64, prev2: Option<Hash>)
    requires IsEndTime(ts1) && IsEndTime(ts2) && EndRecord(ts1, n1, prev1) == EndRecord(ts2, n2, prev2)
    ensures ts1 == ts2 && prev1 == prev2
  {
    hide Stamp, EndRecord;
    var a1, a2 := Timestamp(ATTRID_TS, ts1.sec, ts1.nsec), Timestamp(ATTRID_TS, ts2.sec, ts2.nsec);
    var e1, e2 := Record(0, [a1]), Record(0, [a2]);
    EndAsStamp(ts1, n1, prev1);
    EndAsStamp(ts2, n2, prev2);
    StampChannel(e1, n1, prev1);
    StampChannel(e2, n2, prev2);
    StampInjective(e1, n1, prev1, e2, n2, prev2);
    assert e1.attributes[0] == e2.attributes[0];
  }

  lemma StampChannel(e: Record, n: UInt64, prev: Option<Hash>)
    ensures Stamp(e, n, prev).channel == e.channel
  {
  }

  /** The hash of the end record fixes the whole session: its session record, every one of its
      events, and the time at which it ended. */
  lemma EndHashBindsSession(hash: HashFn, n: nat, s1: Session, s2: Session)
    requires WellFormed(s1) && WellFormed(s2) && HasLength(hash, n) && NoCollision(hash, s1, s2)
    requires s1.end.Some? && s2.end.Some? && hash(EndInput(hash, s1)) == hash(EndInput(hash, s2))
    ensures s1 == s2
  {
    hide EncodeRecord, EndRecord, SessionHash, StorableRecord, EventInput, Capturable, ContextAfter, EndInput;
    assert Hashes(hash, s1, EndInput(hash, s1)) && Hashes(hash, s2, EndInput(hash, s2));
    EndInputParts(hash, n, s1, s2);
    SameSession(hash, s1, s2);
    EndStorable(hash, n, s1);
    EndStorable(hash, n, s2);
    EncodeRecordInjective(EMPTY_CONTEXT, EndOf(hash, s1), EndOf(hash, s2));
    EndInjective(s1.end.value, |s1.events| % TWO64, Previous(hash, s1, |s1.events|),
                 s2.end.value, |s2.events| % TWO64, Previous(hash, s2, |s2.events|));
    if s1.events != [] && s2.events != [] {
      HashBindsHistory(hash, n, s1, s2, |s1.events| - 1, |s2.events| - 1);
      assert s1.events[..|s1.events|] == s1.events && s2.events[..|s2.events|] == s2.events;
    }
  }

  lemma EndInputParts(hash: HashFn, n: nat, s1: Session, s2: Session)
    requires WellFormed(s1) && WellFormed(s2) && HasLength(hash, n)
    requires s1.end.Some? && s2.end.Some? && EndInput(hash, s1) == EndInput(hash, s2)
    ensures SessionHash(hash, s1) == SessionHash(hash, s2)
    ensures EncodeRecord(EndOf(hash, s1)) == EncodeRecord(EndOf(hash, s2))
  {
    hide EncodeRecord, EndRecord, SessionHash, Previous, Capturable, StorableRecord;
    InputParts(hash, n, s1, s2, EncodeRecord(EndOf(hash, s1)), EncodeRecord(EndOf(hash, s2)));
  }

  // ---------------------------------------------------------------------------
  // How the chain grows
  // ---------------------------------------------------------------------------

  /** The session after one more event. */
  function With(s: Session, e: Record): Session { s.(events := s.events + [e]) }

  ghost function StampedEvents(hash: HashFn, s: Session): seq<Record> {
    seq(|s.events|, k requires 0 <= k < |s.events| => Stamped(hash, s, k))
  }

  /** Further events do not affect the hashes of those already captured. */
  lemma {:induction false} ChainKept(hash: HashFn, s: Session, t: Session, k: nat)
    requires t.srec == s.srec && s.events <= t.events && k < |s.events|
    ensures Stamped(hash, t, k) == Stamped(hash, s, k) && EventHash(hash, t, k) == EventHash(hash, s, k)
  {
    hide Stamp, EncodeRecord;
    if k == 0 {
    } else {
      ChainKept(hash, s, t, k - 1);
    }
  }

  /** That a session has ended does not affect the hashes of its events. */
  lemma EndKept(hash: HashFn, s: Session, t: Session)
    requires t == s.(end := t.end)
    ensures SessionHash(hash, t) == SessionHash(hash, s)
    ensures StampedEvents(hash, t) == StampedEvents(hash, s)
    ensures Previous(hash, t, |t.events|) == Previous(hash, s, |s.events|)
  {
    hide Stamp, EncodeRecord, EventHash;
    forall k | 0 <= k < |s.events|
      ensures Stamped(hash, t, k) == Stamped(hash, s, k) && EventHash(hash, t, k) == EventHash(hash, s, k)
    {
      ChainKept(hash, s, t, k);
    }
  }

  /** One more event adds its own record to those written, and changes none of them. */
  lemma ChainGrows(hash: HashFn, s: Session, e: Record)
    ensures var n := |s.events|; var rec := Stamp(e, n % TWO64, Previous(hash, s, n));
            && StampedEvents(hash, With(s, e)) == StampedEvents(hash, s) + [rec]
            && EventHash(hash, With(s, e), n) == hash(SessionHash(hash, s) + EncodeRecord(rec))
            && Previous(hash, With(s, e), n + 1) == Some(EventHash(hash, With(s, e), n))
  {
    hide Stamp, EncodeRecord;
    var t := With(s, e);
    var n := |s.events|;
    forall k | 0 <= k < n
      ensures Stamped(hash, t, k) == Stamped(hash, s, k) && EventHash(hash, t, k) == EventHash(hash, s, k)
    {
      ChainKept(hash, s, t, k);
    }
    assert Previous(hash, t, n) == Previous(hash, s, n);
    assert Stamped(hash, t, n) == Stamp(e, n % TWO64, Previous(hash, s, n));
    assert EventHash(hash, t, n) == hash(EventInput(hash, t, n));
  }
}
